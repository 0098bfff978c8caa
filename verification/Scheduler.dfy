/**
 The process lists and the scheduling steps of kernel/process.cc: two
 doubly-linked lists, one of ready and one of suspended processes, threaded
 through one process table.

 The links of a process that leaves a list are not cleared, so what keeps the
 lists apart is which operations are applied when; `Sound` states it. The steps
 that choose and run a process compute the steps of `Fairness`.
 */
module Scheduling {
  import opened Bytes
  import opened Pools
  import Fairness

  datatype Process = Process(suspended: bool, terminating: bool, exitStatus: int, waiter: Option<nat>, lastTick: nat)

  /** The process table: a row is a process and its place on a list. */
  type Table = seq<Node<Process>>

  const MAX_TICK: nat := 0xFFFF_FFFF_FFFF_FFFF

  /** A list: its head, its members from the head on, and where each of them is. */
  datatype ListView = ListView(head: nat, order: seq<nat>, rank: map<nat, nat>)

  /** The links in `ns` spell out the list `l`; the table's size is the end mark. */
  ghost predicate ListIs(ns: Table, l: ListView) {
    ListAt(ns, l.head, Link(l.order, |l.order| - 1, |ns|), l.order, l.rank, |ns|)
  }

  ghost function Plus(l: ListView, pid: nat): ListView {
    ListView(pid, [pid] + l.order, PrependedRank(l.rank, pid))
  }

  ghost function Minus(ns: Table, l: ListView, pid: nat): ListView
    requires pid in l.rank && pid in l.order
  {
    ListView(Link(Without(l.order, pid), 0, |ns|), Without(l.order, pid), UnlinkedRank(l.rank, pid))
  }

  ghost function Dropped(order: seq<nat>, pid: nat): seq<nat> {
    if pid in order then Without(order, pid) else order
  }

  /** enqueue_front on the table. */
  ghost function Enqueued(ns: Table, head: nat, pid: nat): (ns': Table)
    ensures |ns'| == |ns|
  {
    SetPrev(SetNext(SetPrev(ns, head, pid), pid, head), pid, |ns|)
  }

  /** dequeue on the table. */
  ghost function Dequeued(ns: Table, pid: nat): (ns': Table)
    requires pid < |ns|
    ensures |ns'| == |ns|
  {
    SetPrev(SetNext(ns, ns[pid].prev, ns[pid].next), ns[pid].next, ns[pid].prev)
  }

  /** Everything but the links is as it was. */
  ghost predicate SameValues(ns: Table, ns': Table) {
    |ns'| == |ns| && forall i :: 0 <= i < |ns| ==> ns'[i].value == ns[i].value
  }

  ghost predicate SameLinks(ns: Table, ns': Table) {
    |ns'| == |ns| && forall i :: 0 <= i < |ns| ==> ns'[i].next == ns[i].next && ns'[i].prev == ns[i].prev
  }

  lemma MemberOf(ns: Table, l: ListView, pid: nat)
    requires ListIs(ns, l)
    ensures pid in l.rank <==> pid in l.order
    ensures pid in l.rank ==> pid < |ns|
  {
  }

  lemma EnqueueOrder(ns: Table, head: nat, pid: nat)
    requires pid < |ns| && head != pid
    ensures var ns0 := SetPrev(ns, pid, |ns|);
      Enqueued(ns, head, pid) == SetNext(SetPrev(ns0, head, pid), pid, head)
  {
  }

  lemma DetachedFrame(ns: Table, l: ListView, pid: nat)
    requires ListIs(ns, l) && pid !in l.rank && pid < |ns|
    ensures ListIs(SetPrev(ns, pid, |ns|), l)
  {
    var ns' := SetPrev(ns, pid, |ns|);
    ListFrame(ns, ns', l.head, Link(l.order, |l.order| - 1, |ns|), l.order, l.rank, |ns|);
  }

  lemma EnqueueTail(l: ListView, pid: nat, end: nat)
    requires forall i <- l.order :: i < end
    ensures Link([pid] + l.order, |l.order|, end) == var tail := Link(l.order, |l.order| - 1, end);
      if tail == end then pid else tail
  {
    assert l.order != [] ==> l.order[|l.order| - 1] in l.order;
  }

  /** Enqueuing at the front keeps the list, in the new order. */
  lemma EnqueueList(ns: Table, l: ListView, pid: nat)
    requires ListIs(ns, l) && pid < |ns| && pid !in l.rank
    ensures ListIs(Enqueued(ns, l.head, pid), Plus(l, pid))
  {
    forall i | i in l.order ensures i < |ns| { MemberOf(ns, l, i); }
    EnqueueTail(l, pid, |ns|);
    MemberOf(ns, l, pid);
    EnqueueOrder(ns, l.head, pid);
    DetachedFrame(ns, l, pid);
    PrependList(SetPrev(ns, pid, |ns|), l.head, Link(l.order, |l.order| - 1, |ns|), l.order, l.rank, |ns|, pid);
    hide ListAt, SetNext, PrependedRank, Enqueued, OnlyDeadChanged;
  }

  lemma DequeueTail(l: ListView, pid: nat, end: nat)
    requires Ranked(l.order, l.rank) && pid in l.rank && pid in l.order
    ensures var k := l.rank[pid];
      && Link(Without(l.order, pid), |l.order| - 2, end)
         == (if Link(l.order, |l.order| - 1, end) == pid
             then Link(l.order, k as int - 1, end) else Link(l.order, |l.order| - 1, end))
      && Link(Without(l.order, pid), 0, end) ==
           (if Link(l.order, 0, end) == pid then Link(l.order, k + 1, end) else Link(l.order, 0, end))
  {
    RankIsIndex(l.order, l.rank, pid);
    UnlinkEnds(l.order, l.rank, end, pid);
  }

  /** Dequeuing keeps the list, wherever the process was on it, in the old order without it. */
  lemma DequeueList(ns: Table, l: ListView, pid: nat)
    requires ListIs(ns, l) && pid in l.rank
    ensures pid < |ns| && pid in l.order
    ensures ListIs(Dequeued(ns, pid), Minus(ns, l, pid))
    ensures Minus(ns, l, pid).head == if l.head == pid then ns[pid].next else l.head
  {
    MemberOf(ns, l, pid);
    DequeueTail(l, pid, |ns|);
    UnlinkNeighbours(ns, l.order, l.rank, |ns|, pid);
    UnlinkList(ns, l.head, Link(l.order, |l.order| - 1, |ns|), l.order, l.rank, |ns|, pid);
    hide Linked, OnlyDeadChanged, UnlinkedRank, Without, SetNext, SetPrev;
  }

  /** Only processes in `keys` have changed. */
  ghost predicate ChangedWithin(ns: Table, ns': Table, keys: set<nat>) {
    |ns'| == |ns| && forall i: nat :: i < |ns| && i !in keys ==> ns'[i] == ns[i]
  }

  lemma EnqueueChanges(ns: Table, l: ListView, pid: nat)
    requires ListIs(ns, l) && pid < |ns|
    ensures ChangedWithin(ns, Enqueued(ns, l.head, pid), l.rank.Keys + {pid})
  {
    assert l.head in l.rank || l.head == |ns|;
  }

  lemma DequeueChanges(ns: Table, l: ListView, pid: nat)
    requires ListIs(ns, l) && pid in l.rank && pid < |ns|
    ensures ChangedWithin(ns, Dequeued(ns, pid), l.rank.Keys)
  {
    UnlinkNeighbours(ns, l.order, l.rank, |ns|, pid);
    hide ListIs;
  }

  lemma ChangeFrame(ns: Table, ns': Table, keys: set<nat>, other: ListView)
    requires ListIs(ns, other) && ChangedWithin(ns, ns', keys) && keys !! other.rank.Keys
    ensures ListIs(ns', other)
  {
    ListFrame(ns, ns', other.head, Link(other.order, |other.order| - 1, |ns|), other.order, other.rank, |ns|);
    hide ListAt;
  }

  lemma EnqueueFrame(ns: Table, l: ListView, pid: nat, other: ListView)
    requires ListIs(ns, l) && pid < |ns| && ListIs(ns, other) && l.rank.Keys !! other.rank.Keys && pid !in other.rank
    ensures ListIs(Enqueued(ns, l.head, pid), other)
  {
    hide ListIs, Enqueued, ChangedWithin;
    EnqueueChanges(ns, l, pid);
    ChangeFrame(ns, Enqueued(ns, l.head, pid), l.rank.Keys + {pid}, other);
  }

  lemma DequeueFrame(ns: Table, l: ListView, pid: nat, other: ListView)
    requires ListIs(ns, l) && pid in l.rank && pid < |ns| && ListIs(ns, other) && l.rank.Keys !! other.rank.Keys
    ensures ListIs(Dequeued(ns, pid), other)
  {
    hide ListIs, Dequeued, ChangedWithin;
    DequeueChanges(ns, l, pid);
    ChangeFrame(ns, Dequeued(ns, pid), l.rank.Keys, other);
  }

  lemma LinkFrame(ns: Table, ns': Table, l: ListView)
    requires ListIs(ns, l) && SameLinks(ns, ns')
    ensures ListIs(ns', l)
  {
  }

  lemma OnlyLinksChange(ns: Table, head: nat, pid: nat)
    requires pid < |ns|
    ensures SameValues(ns, Enqueued(ns, head, pid))
    ensures SameValues(ns, Dequeued(ns, pid))
  {
  }

  /** Who is on which list: the flags of a process say so. */
  ghost predicate Sorted(ns: Table, live: set<nat>, run: map<nat, nat>, susp: map<nat, nat>) {
    && (forall p <- live :: p < |ns|)
    && (forall p <- run :: p in live && !ns[p].value.suspended && !ns[p].value.terminating)
    && (forall p <- susp :: p in live && ns[p].value.suspended && !ns[p].value.terminating)
    && (forall p <- live :: ns[p].value.suspended && !ns[p].value.terminating ==> p in susp)
  }

  /**
   Both lists are what the links say, share no process, a process on the running
   list is ready, one on the suspended list suspended, and a killed one on neither.
   */
  ghost predicate Sound(ns: Table, live: set<nat>, run: ListView, susp: ListView) {
    ListIs(ns, run) && ListIs(ns, susp) && run.rank.Keys !! susp.rank.Keys && Sorted(ns, live, run.rank, susp.rank)
  }

  /** Moving `pid` from `a` to the front of `b`. */
  lemma MoveLists(ns: Table, a: ListView, b: ListView, pid: nat)
    requires ListIs(ns, a) && ListIs(ns, b) && a.rank.Keys !! b.rank.Keys && pid in a.rank
    ensures pid < |ns| && pid in a.order
    ensures var ns' := Enqueued(Dequeued(ns, pid), b.head, pid);
      && ListIs(ns', Minus(ns, a, pid)) && ListIs(ns', Plus(b, pid)) && SameValues(ns, ns')
      && Minus(ns, a, pid).rank.Keys !! Plus(b, pid).rank.Keys
  {
    MemberOf(ns, a, pid);
    DequeueList(ns, a, pid);
    DequeueFrame(ns, a, pid, b);
    OnlyLinksChange(ns, 0, pid);
    var ns1 := Dequeued(ns, pid);
    EnqueueList(ns1, b, pid);
    EnqueueFrame(ns1, b, pid, Minus(ns, a, pid));
    OnlyLinksChange(ns1, b.head, pid);
    hide ListIs, Enqueued, Dequeued, Without;
  }

  lemma SuspendSorted(ns: Table, ns': Table, live: set<nat>, run: map<nat, nat>, susp: map<nat, nat>, pid: nat)
    requires Sorted(ns, live, run, susp) && pid in run && pid < |ns| && |ns'| == |ns|
    requires forall i :: 0 <= i < |ns| ==>
      ns'[i].value == if i == pid then ns[i].value.(suspended := true) else ns[i].value
    ensures Sorted(ns', live, UnlinkedRank(run, pid), PrependedRank(susp, pid))
  {
  }

  lemma ResumeSorted(ns: Table, ns': Table, live: set<nat>, run: map<nat, nat>, susp: map<nat, nat>, pid: nat)
    requires Sorted(ns, live, run, susp) && pid in susp && pid < |ns| && |ns'| == |ns|
    requires forall i :: 0 <= i < |ns| ==>
      ns'[i].value == if i == pid then ns[i].value.(suspended := false) else ns[i].value
    ensures Sorted(ns', live, PrependedRank(run, pid), UnlinkedRank(susp, pid))
  {
  }

  ghost predicate Changed(ns: Table, ns': Table, pid: nat, v: Process) {
    |ns'| == |ns| && forall i :: 0 <= i < |ns| ==> ns'[i].value == if i == pid then v else ns[i].value
  }

  function Stored(ns: Table, pid: nat, v: Process): (ns': Table)
    requires pid < |ns|
    ensures SameLinks(ns, ns') && Changed(ns, ns', pid, v)
  {
    ns[pid := ns[pid].(value := v)]
  }

  lemma MovedValue(ns: Table, ns1: Table, pid: nat, v: Process)
    requires SameValues(ns, ns1) && pid < |ns|
    ensures Changed(ns, Stored(ns1, pid, v), pid, v)
  {
  }

  lemma SuspendKeeps(ns: Table, live: set<nat>, run: ListView, susp: ListView, pid: nat)
    requires Sound(ns, live, run, susp) && pid in run.rank
    ensures pid < |ns| && pid in run.order
    ensures var ns' := Stored(Enqueued(Dequeued(ns, pid), susp.head, pid), pid, ns[pid].value.(suspended := true));
      Sound(ns', live, Minus(ns, run, pid), Plus(susp, pid)) && Changed(ns, ns', pid, ns[pid].value.(suspended := true))
  {
    MoveLists(ns, run, susp, pid);
    var ns1 := Enqueued(Dequeued(ns, pid), susp.head, pid);
    var ns' := Stored(ns1, pid, ns[pid].value.(suspended := true));
    MovedValue(ns, ns1, pid, ns[pid].value.(suspended := true));
    LinkFrame(ns1, ns', Minus(ns, run, pid));
    LinkFrame(ns1, ns', Plus(susp, pid));
    SuspendSorted(ns, ns', live, run.rank, susp.rank, pid);
    hide ListIs, Enqueued, Dequeued, Without, Sorted, Stored, SameLinks, SameValues;
  }

  lemma ResumeKeeps(ns: Table, live: set<nat>, run: ListView, susp: ListView, pid: nat)
    requires Sound(ns, live, run, susp) && pid in susp.rank
    ensures pid < |ns| && pid in susp.order
    ensures var ns' := Stored(Enqueued(Dequeued(ns, pid), run.head, pid), pid, ns[pid].value.(suspended := false));
      Sound(ns', live, Plus(run, pid), Minus(ns, susp, pid))
        && Changed(ns, ns', pid, ns[pid].value.(suspended := false))
  {
    MoveLists(ns, susp, run, pid);
    var ns1 := Enqueued(Dequeued(ns, pid), run.head, pid);
    var ns' := Stored(ns1, pid, ns[pid].value.(suspended := false));
    MovedValue(ns, ns1, pid, ns[pid].value.(suspended := false));
    LinkFrame(ns1, ns', Plus(run, pid));
    LinkFrame(ns1, ns', Minus(ns, susp, pid));
    ResumeSorted(ns, ns', live, run.rank, susp.rank, pid);
    hide ListIs, Enqueued, Dequeued, Without, Sorted, Stored, SameLinks, SameValues;
  }

  lemma KillSorted(ns: Table, ns': Table, live: set<nat>, run: map<nat, nat>, susp: map<nat, nat>, pid: nat,
                   status: int)
    requires Sorted(ns, live, run, susp) && pid < |ns|
    requires Changed(ns, ns', pid, ns[pid].value.(terminating := true, exitStatus := status))
    ensures pid in run && pid !in susp ==> Sorted(ns', live, UnlinkedRank(run, pid), susp)
    ensures pid in susp && pid !in run ==> Sorted(ns', live, run, UnlinkedRank(susp, pid))
  {
  }

  /** Taking `pid` off list `a` and marking it, next to an unrelated list `b`. */
  lemma KillLists(ns: Table, a: ListView, b: ListView, pid: nat, v: Process)
    requires ListIs(ns, a) && ListIs(ns, b) && a.rank.Keys !! b.rank.Keys && pid in a.rank
    ensures pid < |ns| && pid in a.order
    ensures var ns' := Stored(Dequeued(ns, pid), pid, v);
      && ListIs(ns', Minus(ns, a, pid)) && ListIs(ns', b) && Changed(ns, ns', pid, v)
      && Minus(ns, a, pid).rank.Keys !! b.rank.Keys
      && Minus(ns, a, pid).head == if a.head == pid then ns[pid].next else a.head
  {
    MemberOf(ns, a, pid);
    DequeueList(ns, a, pid);
    DequeueFrame(ns, a, pid, b);
    OnlyLinksChange(ns, 0, pid);
    var ns1 := Dequeued(ns, pid);
    MovedValue(ns, ns1, pid, v);
    LinkFrame(ns1, Stored(ns1, pid, v), Minus(ns, a, pid));
    LinkFrame(ns1, Stored(ns1, pid, v), b);
    hide ListIs, Enqueued, Dequeued, Without, Stored, SameLinks, SameValues;
  }

  lemma EnqueueSorted(ns: Table, ns': Table, live: set<nat>, run: map<nat, nat>, susp: map<nat, nat>, pid: nat)
    requires Sorted(ns, live, run, susp) && SameValues(ns, ns') && pid in live && pid < |ns|
    requires !ns[pid].value.suspended && !ns[pid].value.terminating
    ensures Sorted(ns', live, PrependedRank(run, pid), susp)
  {
  }

  lemma EnqueueKeeps(ns: Table, live: set<nat>, run: ListView, susp: ListView, pid: nat)
    requires Sound(ns, live, run, susp) && pid in live && pid < |ns| && pid !in run.rank && pid !in susp.rank
    requires !ns[pid].value.suspended && !ns[pid].value.terminating
    ensures Sound(Enqueued(ns, run.head, pid), live, Plus(run, pid), susp)
    ensures SameValues(ns, Enqueued(ns, run.head, pid))
  {
    hide ListIs, Enqueued, Sorted, SameValues;
    EnqueueList(ns, run, pid);
    EnqueueFrame(ns, run, pid, susp);
    OnlyLinksChange(ns, run.head, pid);
    EnqueueSorted(ns, Enqueued(ns, run.head, pid), live, run.rank, susp.rank, pid);
  }

  /** Marking a process without touching the flags the lists depend on. */
  lemma StoreKeeps(ns: Table, live: set<nat>, run: ListView, susp: ListView, pid: nat, v: Process)
    requires Sound(ns, live, run, susp) && pid < |ns|
    requires v.suspended == ns[pid].value.suspended && v.terminating == ns[pid].value.terminating
    ensures Sound(Stored(ns, pid, v), live, run, susp)
  {
    hide ListIs, Sorted, Stored;
    LinkFrame(ns, Stored(ns, pid, v), run);
    LinkFrame(ns, Stored(ns, pid, v), susp);
    StoreSorted(ns, live, run.rank, susp.rank, pid, v);
  }

  lemma StoreSorted(ns: Table, live: set<nat>, run: map<nat, nat>, susp: map<nat, nat>, pid: nat, v: Process)
    requires Sorted(ns, live, run, susp) && pid < |ns|
    requires v.suspended == ns[pid].value.suspended && v.terminating == ns[pid].value.terminating
    ensures Sorted(Stored(ns, pid, v), live, run, susp)
  {
  }

  /** The last ticks of the live processes. */
  ghost function LastTicks(ns: Table, live: set<nat>): (last: map<nat, nat>)
    requires forall p <- live :: p < |ns|
    ensures last.Keys == live
  {
    map p | p in live :: ns[p].value.lastTick
  }

  lemma TickStored(ns: Table, live: set<nat>, pid: nat, t: nat)
    requires (forall p <- live :: p < |ns|) && pid in live
    ensures LastTicks(Stored(ns, pid, ns[pid].value.(lastTick := t)), live) == LastTicks(ns, live)[pid := t]
  {
  }

  /**
   Killing a suspended process leaves its flag set, and resuming it then makes a terminating process the
   first of the ready.
   */
  lemma ResumedAfterKill(ns: Table, pid: nat, live: set<nat>, run: ListView, run': ListView, susp': ListView)
    requires pid < |ns| && ns[pid].value.suspended && ns[pid].value.terminating && run'.head == pid
    ensures !Sound(Stored(Enqueued(Dequeued(ns, pid), run.head, pid), pid, ns[pid].value.(suspended := false)), live,
      run', susp')
  {
    OnlyLinksChange(ns, 0, pid);
    OnlyLinksChange(Dequeued(ns, pid), run.head, pid);
    HeadIsReady(Stored(Enqueued(Dequeued(ns, pid), run.head, pid), pid, ns[pid].value.(suspended := false)), live,
                run', susp');
    hide Sound, Enqueued, Dequeued;
  }

  lemma HeadIsReady(ns: Table, live: set<nat>, run: ListView, susp: ListView)
    ensures Sound(ns, live, run, susp) && run.head < |ns| ==> !ns[run.head].value.terminating
  {
  }

  /**
   The idle process can always run, no process ran later than now, and whoever is waited for is waited for
   by a live one.
   */
  ghost predicate Settled(ns: Table, live: set<nat>, tick: nat, idle: nat) {
    && (forall p <- live :: p < |ns|)
    && idle in live && !ns[idle].value.suspended && !ns[idle].value.terminating
    && tick < MAX_TICK && (forall p <- live :: ns[p].value.lastTick <= tick)
    && (forall p <- live :: ns[p].value.waiter.Some? ==> ns[p].value.waiter.value in live)
  }

  lemma ChangeSettled(ns: Table, ns': Table, live: set<nat>, tick: nat, idle: nat, pid: nat, v: Process)
    requires Settled(ns, live, tick, idle) && Changed(ns, ns', pid, v) && pid != idle && v.lastTick <= tick
    requires pid in live ==> v.waiter == ns[pid].value.waiter
    ensures Settled(ns', live, tick, idle)
  {
  }

  lemma SuspendStep(ns: Table, live: set<nat>, run: ListView, susp: ListView, pid: nat, tick: nat, idle: nat)
    requires Sound(ns, live, run, susp) && pid in run.rank && Settled(ns, live, tick, idle) && idle !in run.rank
    requires idle !in susp.rank
    ensures pid < |ns| && pid in run.order && ns[pid].next <= |ns| && ns[pid].prev <= |ns| && susp.head <= |ns|
    ensures var ns' := Stored(Enqueued(Dequeued(ns, pid), susp.head, pid), pid, ns[pid].value.(suspended := true));
      && Sound(ns', live, Minus(ns, run, pid), Plus(susp, pid))
           && Changed(ns, ns', pid, ns[pid].value.(suspended := true))
      && Settled(ns', live, tick, idle)
    ensures Minus(ns, run, pid).head == if run.head == pid then ns[pid].next else run.head
    ensures idle !in Minus(ns, run, pid).rank && idle !in Plus(susp, pid).rank
  {
    hide ListIs, Enqueued, Dequeued, PrependedRank, UnlinkedRank, Sorted, Stored, Settled, Changed;
    SuspendKeeps(ns, live, run, susp, pid);
    LinksInTable(ns, run, susp, pid);
    DequeueList(ns, run, pid);
    ghost var ns' := Stored(Enqueued(Dequeued(ns, pid), susp.head, pid), pid, ns[pid].value.(suspended := true));
    WasSettled(ns, live, tick, idle, run, susp, pid);
    ChangeSettled(ns, ns', live, tick, idle, pid, ns[pid].value.(suspended := true));
  }

  lemma ResumeStep(ns: Table, live: set<nat>, run: ListView, susp: ListView, pid: nat, tick: nat, idle: nat)
    requires Sound(ns, live, run, susp) && pid in susp.rank && Settled(ns, live, tick, idle) && idle !in run.rank
    requires idle !in susp.rank
    ensures pid < |ns| && pid in susp.order && ns[pid].next <= |ns| && ns[pid].prev <= |ns| && run.head <= |ns|
    ensures var ns' := Stored(Enqueued(Dequeued(ns, pid), run.head, pid), pid, ns[pid].value.(suspended := false));
      && Sound(ns', live, Plus(run, pid), Minus(ns, susp, pid))
           && Changed(ns, ns', pid, ns[pid].value.(suspended := false))
      && Settled(ns', live, tick, idle)
    ensures Minus(ns, susp, pid).head == if susp.head == pid then ns[pid].next else susp.head
    ensures idle !in Minus(ns, susp, pid).rank && idle !in Plus(run, pid).rank
  {
    hide ListIs, Enqueued, Dequeued, PrependedRank, UnlinkedRank, Sorted, Stored, Settled, Changed;
    ResumeKeeps(ns, live, run, susp, pid);
    LinksInTable(ns, susp, run, pid);
    DequeueList(ns, susp, pid);
    ghost var ns' := Stored(Enqueued(Dequeued(ns, pid), run.head, pid), pid, ns[pid].value.(suspended := false));
    WasSettled(ns, live, tick, idle, run, susp, pid);
    ChangeSettled(ns, ns', live, tick, idle, pid, ns[pid].value.(suspended := false));
  }

  lemma KillRunning(ns: Table, live: set<nat>, run: ListView, susp: ListView, pid: nat, status: int, tick: nat,
                    idle: nat)
    requires Sound(ns, live, run, susp) && pid in run.rank && Settled(ns, live, tick, idle) && idle !in run.rank
    requires idle !in susp.rank
    ensures pid < |ns| && pid in run.order && ns[pid].next <= |ns| && ns[pid].prev <= |ns|
    ensures var v := ns[pid].value.(terminating := true, exitStatus := status);
      var ns' := Stored(Dequeued(ns, pid), pid, v);
      && Sound(ns', live, Minus(ns, run, pid), susp) && Changed(ns, ns', pid, v) && Settled(ns', live, tick, idle)
    ensures Minus(ns, run, pid).head == if run.head == pid then ns[pid].next else run.head
    ensures idle !in Minus(ns, run, pid).rank
  {
    hide ListIs, Dequeued, UnlinkedRank, Sorted, Stored, Settled, Changed, Without;
    LinksInTable(ns, run, susp, pid);
    ghost var v := ns[pid].value.(terminating := true, exitStatus := status);
    KillLists(ns, run, susp, pid, v);
    KillSorted(ns, Stored(Dequeued(ns, pid), pid, v), live, run.rank, susp.rank, pid, status);
    WasSettled(ns, live, tick, idle, run, susp, pid);
    ChangeSettled(ns, Stored(Dequeued(ns, pid), pid, v), live, tick, idle, pid, v);
  }

  lemma KillSuspended(ns: Table, live: set<nat>, run: ListView, susp: ListView, pid: nat, status: int, tick: nat,
                      idle: nat)
    requires Sound(ns, live, run, susp) && pid in susp.rank && Settled(ns, live, tick, idle) && idle !in run.rank
    requires idle !in susp.rank
    ensures pid < |ns| && pid in susp.order && ns[pid].next <= |ns| && ns[pid].prev <= |ns|
    ensures var v := ns[pid].value.(terminating := true, exitStatus := status);
      var ns' := Stored(Dequeued(ns, pid), pid, v);
      && Sound(ns', live, run, Minus(ns, susp, pid)) && Changed(ns, ns', pid, v) && Settled(ns', live, tick, idle)
    ensures Minus(ns, susp, pid).head == if susp.head == pid then ns[pid].next else susp.head
    ensures idle !in Minus(ns, susp, pid).rank
  {
    hide ListIs, Dequeued, UnlinkedRank, Sorted, Stored, Settled, Changed, Without;
    LinksInTable(ns, susp, run, pid);
    ghost var v := ns[pid].value.(terminating := true, exitStatus := status);
    KillLists(ns, susp, run, pid, v);
    KillSorted(ns, Stored(Dequeued(ns, pid), pid, v), live, run.rank, susp.rank, pid, status);
    WasSettled(ns, live, tick, idle, run, susp, pid);
    ChangeSettled(ns, Stored(Dequeued(ns, pid), pid, v), live, tick, idle, pid, v);
  }

  lemma WasSettled(ns: Table, live: set<nat>, tick: nat, idle: nat, run: ListView, susp: ListView, pid: nat)
    requires Settled(ns, live, tick, idle) && Sound(ns, live, run, susp) && (pid in run.rank || pid in susp.rank)
    requires pid < |ns|
    ensures pid in live && ns[pid].value.lastTick <= tick && !ns[pid].value.terminating
    ensures ns[pid].value.suspended <==> pid in susp.rank
  {
    hide ListIs;
  }

  lemma Lists(ns: Table, live: set<nat>, run: ListView, susp: ListView, tick: nat, idle: nat, pid: nat)
    requires Sound(ns, live, run, susp) && Settled(ns, live, tick, idle) && pid in live
    ensures pid < |ns| && ns[pid].value.lastTick <= tick
    ensures pid in run.rank <==> pid in run.order
    ensures pid in susp.rank <==> pid in susp.order
    ensures ns[pid].value.suspended && !ns[pid].value.terminating <==> pid in susp.rank
    ensures pid in run.rank ==> !ns[pid].value.suspended && !ns[pid].value.terminating
  {
    MemberOf(ns, run, pid);
    MemberOf(ns, susp, pid);
    hide ListIs;
  }

  ghost function Ticked(s: Fairness.Sched): Fairness.Sched {
    s.(tick := s.tick + 1, last := if s.current in s.last then s.last[s.current := s.tick + 1] else s.last)
  }

  lemma TicksKept(ns: Table, ns': Table, live: set<nat>)
    requires (forall p <- live :: p < |ns|) && |ns'| == |ns|
    requires forall i :: 0 <= i < |ns| ==> ns'[i].value.lastTick == ns[i].value.lastTick
    ensures LastTicks(ns', live) == LastTicks(ns, live)
  {
  }

  lemma TicksKeptBy(ns: Table, ns': Table, live: set<nat>, tick: nat, idle: nat, pid: nat, v: Process)
    requires Settled(ns, live, tick, idle) && pid < |ns| && Changed(ns, ns', pid, v)
    requires v.lastTick == ns[pid].value.lastTick
    ensures (forall p <- live :: p < |ns|) && LastTicks(ns', live) == LastTicks(ns, live)
  {
    TicksKept(ns, ns', live);
  }

  const NEW_PROCESS := Process(false, false, 0, None, 0)

  /** A new process is on no list, whatever its row's links say. */
  lemma CreateKeeps(ns: Table, live: set<nat>, run: ListView, susp: ListView, pid: nat)
    requires Sound(ns, live, run, susp) && pid < |ns| && pid !in live
    ensures Sound(Stored(ns, pid, NEW_PROCESS), live + {pid}, run, susp)
  {
    hide ListIs, Stored;
    LinkFrame(ns, Stored(ns, pid, NEW_PROCESS), run);
    LinkFrame(ns, Stored(ns, pid, NEW_PROCESS), susp);
  }

  lemma CreateSettled(ns: Table, live: set<nat>, tick: nat, idle: nat, pid: nat)
    requires Settled(ns, live, tick, idle) && pid < |ns| && pid !in live
    ensures Settled(Stored(ns, pid, NEW_PROCESS), live + {pid}, tick, idle)
    ensures forall p <- live :: p < |ns|
    ensures LastTicks(Stored(ns, pid, NEW_PROCESS), live + {pid}) == LastTicks(ns, live)[pid := 0]
  {
  }

  /** A terminating process that nobody names as waiter can go. */
  lemma DestroyKeeps(ns: Table, live: set<nat>, run: ListView, susp: ListView, pid: nat)
    requires Sound(ns, live, run, susp) && pid in live && pid < |ns| && ns[pid].value.terminating
    ensures Sound(ns, live - {pid}, run, susp) && pid !in run.rank && pid !in susp.rank
  {
    hide ListIs;
  }

  lemma DestroySettled(ns: Table, live: set<nat>, tick: nat, idle: nat, pid: nat)
    requires Settled(ns, live, tick, idle) && pid in live && pid != idle
    requires forall q <- live :: q < |ns| && (q != pid ==> ns[q].value.waiter != Some(pid))
    ensures Settled(ns, live - {pid}, tick, idle)
    ensures LastTicks(ns, live - {pid}) == LastTicks(ns, live) - {pid}
  {
  }

  lemma InTable(ns: Table, live: set<nat>, tick: nat, idle: nat)
    requires Settled(ns, live, tick, idle)
    ensures tick < MAX_TICK && forall p <- live :: p < |ns|
  {
  }

  lemma NotReady(ns: Table, live: set<nat>, run: ListView, susp: ListView, pid: nat)
    requires Sound(ns, live, run, susp) && pid in live && pid < |ns| && ns[pid].value.terminating
    ensures pid !in run.order && pid !in susp.order
  {
    MemberOf(ns, run, pid);
    MemberOf(ns, susp, pid);
    hide ListIs;
  }

  /** The table with `w` suspended, to be woken when `pid` ends. */
  ghost function Sleeping(ns: Table, w: nat, pid: nat): Table {
    if w >= |ns| || pid >= |ns| then ns else
    var ns1 := Stored(ns, w, ns[w].value.(suspended := true));
    Stored(ns1, pid, ns1[pid].value.(waiter := Some(w)))
  }

  lemma SleepingIs(ns: Table, ns1: Table, ns': Table, w: nat, pid: nat)
    requires w < |ns| && pid < |ns| && Changed(ns, ns1, w, ns[w].value.(suspended := true))
    requires Changed(ns1, ns', pid, ns1[pid].value.(waiter := Some(w)))
    ensures SameValues(Sleeping(ns, w, pid), ns')
  {
  }

  lemma OnlyTicksFrom(a: Table, b: Table, c: Table)
    requires SameValues(a, b) && OnlyTicks(b, c)
    ensures OnlyTicks(a, c)
  {
  }

  /** Everything but last ticks is as it was. */
  ghost predicate OnlyTicks(ns: Table, ns': Table) {
    |ns'| == |ns| && forall i :: 0 <= i < |ns| ==> ns'[i].value == ns[i].value.(lastTick := ns'[i].value.lastTick)
  }

  lemma SameTicks(ns: Table)
    ensures OnlyTicks(ns, ns)
  {
  }

  lemma OnlyTicksTrans(a: Table, b: Table, c: Table)
    requires OnlyTicks(a, b) && OnlyTicks(b, c)
    ensures OnlyTicks(a, c)
  {
  }

  /**
   Killing a process again takes it off a list it is not on, by links that may be out of
   date. It does no harm exactly if its former neighbours, where they are on a list, are
   still linked past it.
   */
  lemma KillAgainExactly(ns: Table, live: set<nat>, run: ListView, susp: ListView, pid: nat, v: Process)
    requires Sound(ns, live, run, susp) && pid in live && pid < |ns| && ns[pid].value.terminating
    requires v.terminating && v.suspended == ns[pid].value.suspended
    ensures var prev, next := ns[pid].prev, ns[pid].next;
      Sound(Stored(Dequeued(ns, pid), pid, v), live, run, susp)
      <==> (Listed(run, susp, prev) ==> ns[prev].next == next) && (Listed(run, susp, next) ==> ns[next].prev == prev)
  {
    hide Sorted;
    OnlyLinksChange(ns, 0, pid);
    var ns1 := Dequeued(ns, pid);
    var ns' := Stored(ns1, pid, v);
    KilledSorted(ns, ns', live, run.rank, susp.rank, pid, v);
    DestroyKeeps(ns, live, run, susp, pid);
    BypassExactly(ns, ns', run, pid);
    BypassExactly(ns, ns', susp, pid);
    hide ListIs, Stored, Dequeued, SameValues, Changed;
  }

  ghost predicate Listed(run: ListView, susp: ListView, pid: nat) {
    pid in run.rank || pid in susp.rank
  }

  lemma KilledSorted(ns: Table, ns': Table, live: set<nat>, run: map<nat, nat>, susp: map<nat, nat>, pid: nat,
                     v: Process)
    requires Sorted(ns, live, run, susp) && Changed(ns, ns', pid, v) && pid < |ns| && ns[pid].value.terminating
    requires v.terminating
    ensures Sorted(ns', live, run, susp)
  {
  }

  /** Bridging past `pid` leaves a list it is not on alone exactly if it changes no link of a member. */
  lemma BypassExactly(ns: Table, ns': Table, l: ListView, pid: nat)
    requires ListIs(ns, l) && pid < |ns| && pid !in l.rank && SameLinks(Dequeued(ns, pid), ns')
    ensures var prev, next := ns[pid].prev, ns[pid].next;
      && (prev in l.rank ==> prev < |ns|) && (next in l.rank ==> next < |ns|)
      && (ListIs(ns', l) <==> (prev in l.rank ==> ns[prev].next == next) && (next in l.rank ==> ns[next].prev == prev))
  {
    hide ListIs, Dequeued, SameLinks;
    var prev, next := ns[pid].prev, ns[pid].next;
    MemberOf(ns, l, prev);
    MemberOf(ns, l, next);
    BridgedLinks(ns, ns', pid);
    if ListIs(ns', l) {
      LinksAgree(ns, ns', l, prev);
      LinksAgree(ns, ns', l, next);
    }
    if (prev in l.rank ==> ns[prev].next == next) && (next in l.rank ==> ns[next].prev == prev) {
      MemberFrame(ns, ns', l);
    }
  }

  lemma BridgedLinks(ns: Table, ns': Table, pid: nat)
    requires pid < |ns| && SameLinks(Dequeued(ns, pid), ns')
    ensures |ns'| == |ns|
    ensures forall i :: 0 <= i < |ns| ==>
      && ns'[i].next == (if i == ns[pid].prev then ns[pid].next else ns[i].next)
      && ns'[i].prev == (if i == ns[pid].next then ns[pid].prev else ns[i].prev)
  {
  }

  lemma LinksAgree(ns: Table, ns': Table, l: ListView, i: nat)
    requires ListIs(ns, l) && ListIs(ns', l) && |ns'| == |ns|
    ensures i in l.rank ==> i < |ns| && ns'[i].next == ns[i].next && ns'[i].prev == ns[i].prev
  {
    if i in l.rank {
      UnlinkNeighbours(ns, l.order, l.rank, |ns|, i);
      UnlinkNeighbours(ns', l.order, l.rank, |ns|, i);
    }
    hide Linked;
  }

  lemma MemberFrame(ns: Table, ns': Table, l: ListView)
    requires ListIs(ns, l) && |ns'| == |ns|
    requires forall i <- l.rank :: i < |ns| ==> ns'[i].next == ns[i].next && ns'[i].prev == ns[i].prev
    ensures ListIs(ns', l)
  {
  }

  // Where it does harm: a process between two ready ones is killed, the one before it
  // suspended, and it is killed again.

  /** The list part of proc_kill on the table. */
  ghost function Killed(ns: Table, pid: nat, status: int): (ns': Table)
    requires pid < |ns|
    ensures |ns'| == |ns|
  {
    Stored(Dequeued(ns, pid), pid, ns[pid].value.(terminating := true, exitStatus := status))
  }

  /** proc_suspend on the table. */
  ghost function Suspended(ns: Table, head: nat, pid: nat): (ns': Table)
    requires pid < |ns|
    ensures |ns'| == |ns|
  {
    Stored(Enqueued(Dequeued(ns, pid), head, pid), pid, ns[pid].value.(suspended := true))
  }

  lemma KilledReady(ns: Table, live: set<nat>, run: ListView, susp: ListView, pid: nat, status: int)
    requires Sound(ns, live, run, susp) && pid in run.rank
    ensures pid < |ns| && pid in run.order && Sound(Killed(ns, pid, status), live, Minus(ns, run, pid), susp)
    ensures pid !in Minus(ns, run, pid).rank && run.rank.Keys == Minus(ns, run, pid).rank.Keys + {pid}
  {
    hide ListIs, Dequeued, Sorted, Stored, Changed, Without;
    MemberOf(ns, run, pid);
    ghost var v := ns[pid].value.(terminating := true, exitStatus := status);
    KillLists(ns, run, susp, pid, v);
    KillSorted(ns, Stored(Dequeued(ns, pid), pid, v), live, run.rank, susp.rank, pid, status);
  }

  lemma KilledLinks(ns: Table, pid: nat, status: int)
    requires pid < |ns| && ns[pid].prev != pid && ns[pid].next != pid
    ensures var ns' := Killed(ns, pid, status);
      && ns'[pid].prev == ns[pid].prev && ns'[pid].next == ns[pid].next
      && (ns[pid].prev < |ns| ==> ns'[ns[pid].prev].next == ns[pid].next)
      && forall i :: 0 <= i < |ns| && i != pid ==> ns'[i].value == ns[i].value
  {
  }

  /** A process on neither list keeps its links. */
  lemma StaleLinks(ns: Table, live: set<nat>, run: ListView, susp: ListView, a: nat, b: nat)
    requires Sound(ns, live, run, susp) && a in run.rank && a < |ns| && b < |ns| && b !in run.rank && b !in susp.rank
    ensures Suspended(ns, susp.head, a)[b] == ns[b]
  {
    hide ListIs, Enqueued, Dequeued;
    DequeueChanges(ns, run, a);
    DequeueFrame(ns, run, a, susp);
    EnqueueChanges(Dequeued(ns, a), susp, a);
  }

  lemma NextOnList(ns: Table, l: ListView, a: nat)
    requires ListIs(ns, l) && a in l.rank
    ensures a < |ns| && (ns[a].next == |ns| || ns[a].next in l.rank)
  {
    UnlinkNeighbours(ns, l.order, l.rank, |ns|, a);
    hide Linked;
  }

  /** No lists fit a table in which a suspended process is linked to one that is not. */
  lemma CrossLinked(ns: Table, live: set<nat>, a: nat, c: nat)
    requires a in live && a < |ns| && c < |ns| && ns[a].next == c
    requires ns[a].value.suspended && !ns[a].value.terminating && !ns[c].value.suspended
    ensures forall r, s :: !Sound(ns, live, r, s)
  {
    forall r, s ensures !Sound(ns, live, r, s) {
      if Sound(ns, live, r, s) {
        NextOnList(ns, s, a);
      }
    }
  }

  lemma KilledTwice(ns: Table, live: set<nat>, run: ListView, susp: ListView, b: nat, status: int)
    requires Sound(ns, live, run, susp) && b in run.rank && b < |ns|
    requires ns[b].prev in run.rank && ns[b].next in run.rank
    ensures ns[b].prev < |ns|
    ensures var asleep := Suspended(Killed(ns, b, status), susp.head, ns[b].prev);
      && (exists r, s :: Sound(asleep, live, r, s))
      && (forall r, s :: !Sound(Killed(asleep, b, status), live, r, s))
  {
    hide ListIs, Sorted, Killed, Suspended, Sound;
    var a, c := ns[b].prev, ns[b].next;
    Neighbours(ns, live, run, susp, b);
    KilledReady(ns, live, run, susp, b, status);
    KilledLinks(ns, b, status);
    var killed, run1 := Killed(ns, b, status), Minus(ns, run, b);
    StaleLinks(killed, live, run1, susp, a, b);
    AsleepKeeps(killed, live, run1, susp, a);
    var asleep := Suspended(killed, susp.head, a);
    KilledLinks(asleep, b, status);
    CrossLinked(Killed(asleep, b, status), live, a, c);
  }

  lemma AsleepKeeps(ns: Table, live: set<nat>, run: ListView, susp: ListView, a: nat)
    requires Sound(ns, live, run, susp) && a in run.rank && a < |ns|
    ensures exists r, s :: Sound(Suspended(ns, susp.head, a), live, r, s)
    ensures Changed(ns, Suspended(ns, susp.head, a), a, ns[a].value.(suspended := true))
  {
    SuspendKeeps(ns, live, run, susp, a);
    assert Sound(Suspended(ns, susp.head, a), live, Minus(ns, run, a), Plus(susp, a));
    hide Sound, Stored, Enqueued, Dequeued, Changed;
  }

  /** The neighbours of a process on the running list. */
  lemma Neighbours(ns: Table, live: set<nat>, run: ListView, susp: ListView, b: nat)
    requires Sound(ns, live, run, susp) && b in run.rank && b < |ns|
    requires ns[b].prev in run.rank && ns[b].next in run.rank
    ensures var a, c := ns[b].prev, ns[b].next;
      && a < |ns| && c < |ns| && a != b && c != b && a != c && a in live && b !in susp.rank
      && !ns[a].value.terminating && !ns[c].value.suspended
  {
    UnlinkNeighbours(ns, run.order, run.rank, |ns|, b);
    MemberOf(ns, run, ns[b].prev);
    MemberOf(ns, run, ns[b].next);
  }

  lemma TickKeeps(ns: Table, live: set<nat>, run: ListView, susp: ListView, tick: nat, idle: nat, pid: nat, t: nat)
    requires Sound(ns, live, run, susp) && Settled(ns, live, tick, idle) && pid in live && tick <= t < MAX_TICK
    ensures pid < |ns| && forall p <- live :: p < |ns|
    ensures var ns' := Stored(ns, pid, ns[pid].value.(lastTick := t));
      && Sound(ns', live, run, susp) && Settled(ns', live, t, idle) && OnlyTicks(ns, ns')
      && LastTicks(ns', live) == LastTicks(ns, live)[pid := t]
  {
    hide ListIs, Sorted, Sound, LastTicks;
    StoreKeeps(ns, live, run, susp, pid, ns[pid].value.(lastTick := t));
    TickStored(ns, live, pid, t);
  }

  lemma LaterSettled(ns: Table, live: set<nat>, tick: nat, idle: nat, t: nat)
    requires Settled(ns, live, tick, idle) && tick <= t < MAX_TICK
    ensures Settled(ns, live, t, idle)
  {
  }

  lemma SameSettled(ns: Table, ns': Table, live: set<nat>, tick: nat, idle: nat)
    requires Settled(ns, live, tick, idle) && SameValues(ns, ns')
    ensures Settled(ns', live, tick, idle)
  {
  }

  ghost function Yielded(s: Fairness.Sched): Fairness.Sched {
    if s.Valid() then Fairness.Yield(s) else s
  }

  class Scheduler {
    var table: Table
    var live: set<nat>
    var runHead: nat
    var suspHead: nat
    var current: nat
    var tick: nat
    const idle: nat
    ghost var run: ListView
    ghost var susp: ListView

    ghost predicate Valid()
      reads this
    {
      && Sound(table, live, run, susp) && runHead == run.head && suspHead == susp.head
      && idle !in run.rank && idle !in susp.rank && Settled(table, live, tick, idle)
    }

    /** What scheduling decisions depend on. */
    ghost function View(): (s: Fairness.Sched)
      requires Valid()
      reads this
    {
      Fairness.Sched(run.order, LastTicks(table, live), tick, current, idle)
    }

    /** An empty table but for the idle process, which is on no list. */
    constructor (capacity: nat, idle: nat)
      requires idle < capacity
      ensures Valid() && |table| == capacity && live == {idle} && this.idle == idle
      ensures run.order == [] && susp.order == [] && tick == 0 && current == capacity
      ensures table[idle].value == Process(false, false, 0, None, 0)
    {
      table := seq(capacity, i => Node(capacity, capacity, Process(false, false, 0, None, 0)));
      live, runHead, suspHead, current, tick := {idle}, capacity, capacity, capacity, 0;
      this.idle := idle;
      run, susp := ListView(capacity, [], map[]), ListView(capacity, [], map[]);
    }

    method EnqueueFront(pid: nat, head: nat) returns (newHead: nat)
      requires pid < |table| && head <= |table|
      modifies this`table
      ensures table == Enqueued(old(table), head, pid) && newHead == pid
    {
      if head != |table| {
        table := table[head := table[head].(prev := pid)];
      }
      table := table[pid := table[pid].(next := head)];
      table := table[pid := table[pid].(prev := |table|)];
      newHead := pid;
    }

    method Dequeue(pid: nat, head: nat) returns (newHead: nat)
      requires pid < |table| && table[pid].next <= |table| && table[pid].prev <= |table|
      modifies this`table
      ensures table == Dequeued(old(table), pid) && newHead == if head == pid then old(table[pid].next) else head
    {
      if table[pid].prev != |table| {
        table := table[table[pid].prev := table[table[pid].prev].(next := table[pid].next)];
      }
      if table[pid].next != |table| {
        table := table[table[pid].next := table[table[pid].next].(prev := table[pid].prev)];
      }
      newHead := if head == pid then table[pid].next else head;
    }

    /** The scheduler's part of proc_create: a free row, as the pool picks it. The row's links are not set. */
    method Create(pid: nat)
      requires Valid() && pid < |table| && pid !in live
      modifies this`table, this`live
      ensures live == old(live) + {pid} && Changed(old(table), table, pid, NEW_PROCESS)
      ensures Valid() && View() == old(View()).(last := old(View()).last[pid := 0])
    {
      hide ListIs, Sorted, Sound, LastTicks, Settled, Changed, SameLinks;
      CreateKeeps(table, live, run, susp, pid);
      CreateSettled(table, live, tick, idle, pid);
      table := Stored(table, pid, NEW_PROCESS);
      live := live + {pid};
    }

    /** destroy_process. Nobody may still be waited for by the process, or its pid would be resumed. */
    method Destroy(pid: nat)
      requires Valid() && pid in live && pid != idle && pid != current && table[pid].value.terminating
      requires forall q <- live :: q != pid ==> table[q].value.waiter != Some(pid)
      modifies this`live
      ensures live == old(live) - {pid} && pid !in run.order
      ensures Valid() && View() == old(View()).(last := old(View()).last - {pid})
    {
      hide ListIs, Sorted, Sound, LastTicks;
      DestroyKeeps(table, live, run, susp, pid);
      DestroySettled(table, live, tick, idle, pid);
      NotReady(table, live, run, susp, pid);
      live := live - {pid};
    }

    /** proc_enqueue, for a new process. */
    method Enqueue(pid: nat)
      requires Valid() && pid in live && pid != idle && pid !in run.order && pid !in susp.order
      requires !table[pid].value.suspended && !table[pid].value.terminating
      modifies this`table, this`runHead, this`run
      ensures run.order == [pid] + old(run.order) && SameValues(old(table), table)
      ensures Valid() && View() == old(View()).(list := run.order)
    {
      hide ListIs, Enqueued, PrependedRank, LastTicks, Settled, Sorted;
      Lists(table, live, run, susp, tick, idle, pid);
      HeadInTable(table, run);
      EnqueueKeeps(table, live, run, susp, pid);
      SameSettled(table, Enqueued(table, runHead, pid), live, tick, idle);
      InTable(table, live, tick, idle);
      TicksKept(table, Enqueued(table, runHead, pid), live);
      runHead := EnqueueFront(pid, runHead);
      run := Plus(run, pid);
    }

    /** Takes `pid` off the list at `from`, puts it first on the list at `to` and sets its flag. */
    method Move(pid: nat, from: nat, to: nat, suspended: bool) returns (newFrom: nat, newTo: nat)
      requires pid < |table| && table[pid].next <= |table| && table[pid].prev <= |table| && to <= |table|
      modifies this`table
      ensures table ==
        Stored(Enqueued(Dequeued(old(table), pid), to, pid), pid, old(table[pid]).value.(suspended := suspended))
      ensures newFrom == (if from == pid then old(table[pid].next) else from) && newTo == pid
    {
      hide Enqueued, Dequeued;
      OnlyLinksChange(table, 0, pid);
      newFrom := Dequeue(pid, from);
      OnlyLinksChange(table, to, pid);
      newTo := EnqueueFront(pid, to);
      table := Stored(table, pid, table[pid].value.(suspended := suspended));
    }

    method Suspend(pid: nat)
      requires Valid() && pid in live && (table[pid].value.suspended || pid in run.order)
      modifies this`table, this`runHead, this`run, this`suspHead, this`susp
      ensures old(table[pid].value.suspended) ==> unchanged(this)
      ensures !old(table[pid].value.suspended) ==>
        && Changed(old(table), table, pid, old(table[pid].value).(suspended := true))
        && run.order == Dropped(old(run.order), pid) && susp.order == [pid] + old(susp.order)
      ensures Valid() && View() == old(View()).(list := run.order)
    {
      hide ListIs, Enqueued, Dequeued, PrependedRank, UnlinkedRank, LastTicks, Sorted, Settled, Sound, Stored;
      hide Changed, Without;
      Lists(table, live, run, susp, tick, idle, pid);
      if table[pid].value.suspended {
        return;
      }
      SuspendStep(table, live, run, susp, pid, tick, idle);
      ghost var run', susp' := Minus(table, run, pid), Plus(susp, pid);
      runHead, suspHead := Move(pid, runHead, suspHead, true);
      TicksKeptBy(old(table), table, live, tick, idle, pid, old(table)[pid].value.(suspended := true));
      run, susp := run', susp';
    }

    method Resume(pid: nat)
      requires Valid() && pid in live && (table[pid].value.suspended ==> !table[pid].value.terminating)
      modifies this`table, this`runHead, this`run, this`suspHead, this`susp
      ensures !old(table[pid].value.suspended) ==> unchanged(this)
      ensures old(table[pid].value.suspended) ==>
        && Changed(old(table), table, pid, old(table[pid].value).(suspended := false))
        && run.order == [pid] + old(run.order) && susp.order == Dropped(old(susp.order), pid)
      ensures Valid() && View() == old(View()).(list := run.order)
    {
      hide ListIs, Enqueued, Dequeued, PrependedRank, UnlinkedRank, LastTicks, Sorted, Settled, Sound, Stored;
      hide Changed, Without;
      Lists(table, live, run, susp, tick, idle, pid);
      if !table[pid].value.suspended {
        return;
      }
      ResumeStep(table, live, run, susp, pid, tick, idle);
      ghost var run', susp' := Plus(run, pid), Minus(table, susp, pid);
      suspHead, runHead := Move(pid, suspHead, runHead, false);
      TicksKeptBy(old(table), table, live, tick, idle, pid, old(table)[pid].value.(suspended := false));
      run, susp := run', susp';
    }

    /** The part of proc_kill that takes the process off its list and marks it. */
    method Remove(pid: nat, status: int)
      requires Valid() && pid in live && (pid in run.order || pid in susp.order)
      modifies this`table, this`runHead, this`run, this`suspHead, this`susp
      ensures Changed(old(table), table, pid, old(table[pid].value).(terminating := true, exitStatus := status))
      ensures run.order == Dropped(old(run.order), pid) && susp.order == Dropped(old(susp.order), pid)
      ensures Valid() && View() == old(View()).(list := run.order)
    {
      hide ListIs, Enqueued, Dequeued, PrependedRank, UnlinkedRank, LastTicks, Sorted, Settled, Sound, Stored;
      hide Changed, Without;
      Lists(table, live, run, susp, tick, idle, pid);
      if table[pid].value.suspended {
        KillSuspended(table, live, run, susp, pid, status, tick, idle);
        OnlyLinksChange(table, 0, pid);
        suspHead := Dequeue(pid, suspHead);
        susp := Minus(old(table), susp, pid);
      } else {
        KillRunning(table, live, run, susp, pid, status, tick, idle);
        OnlyLinksChange(table, 0, pid);
        runHead := Dequeue(pid, runHead);
        run := Minus(old(table), run, pid);
      }
      table := Stored(table, pid, table[pid].value.(terminating := true, exitStatus := status));
      TicksKeptBy(old(table), table, live, tick, idle, pid,
                  old(table)[pid].value.(terminating := true, exitStatus := status));
    }

    method Kill(pid: nat, status: int)
      requires Valid() && pid != idle && (pid in live ==> pid in run.order || pid in susp.order)
      requires pid in live && table[pid].value.waiter.Some? ==>
        var w := table[pid].value.waiter.value;
        table[w].value.suspended ==> !table[w].value.terminating && w != pid
      modifies this`table, this`runHead, this`run, this`suspHead, this`susp
      ensures pid !in live ==> unchanged(this)
      ensures pid in live ==>
        var w := old(table[pid].value.waiter);
        var wakes := w.Some? && old(table)[w.value].value.suspended;
        && |table| == |old(table)|
        && table[pid].value == old(table)[pid].value.(terminating := true, exitStatus := status)
        && (forall i :: 0 <= i < |table| && i != pid ==>
              table[i].value ==
              if wakes && i == w.value then old(table)[i].value.(suspended := false) else old(table)[i].value)
        && run.order == (if wakes then [w.value] else []) + Dropped(old(run.order), pid)
        && susp.order ==
             (if wakes then Dropped(Dropped(old(susp.order), pid), w.value) else Dropped(old(susp.order), pid))
      ensures Valid() && View() == old(View()).(list := run.order)
    {
      hide ListIs, PrependedRank, UnlinkedRank, LastTicks, Sorted, Sound, Stored, Without, Dropped;
      if pid !in live {
        return;
      }
      Remove(pid, status);
      var w := table[pid].value.waiter;
      if w.Some? {
        Resume(w.value);
      }
    }

    /** The scan of the running list, least last tick first seen. */
    method DecideNext() returns (pid: nat)
      requires Valid()
      ensures forall p <- run.order :: p in live
      ensures forall p <- live :: p < |table|
      ensures pid == Fairness.Pick(run.order, LastTicks(table, live), idle)
      ensures pid in live && !table[pid].value.suspended && !table[pid].value.terminating
    {
      hide ListIs, Sorted, Settled, Sound, LastTicks;
      Ready(table, live, run, susp, tick, idle);
      var minTick, minPid, node := MAX_TICK, |table|, runHead;
      ghost var k := 0;
      ghost var last := LastTicks(table, live);
      while node != |table|
        invariant k <= |run.order| && node == Link(run.order, k, |table|)
        invariant k == 0 ==> minTick == MAX_TICK && minPid == |table|
        invariant k > 0 ==>
          minPid == Fairness.Pick(run.order[..k], last, idle) && minPid in run.order && minTick == last[minPid]
        decreases |run.order| - k
      {
        TickOf(table, live, run, susp, tick, idle, k);
        assert run.order[..k + 1] == run.order[..k] + [run.order[k]];
        Fairness.PickAppend(run.order[..k], run.order[k], last, idle);
        if table[node].value.lastTick < minTick {
          minTick, minPid := table[node].value.lastTick, node;
        }
        node := table[node].next;
        k := k + 1;
      }
      EndOfList(run.order, k, |table|);
      assert run.order[..k] == run.order;
      pid := if minPid == |table| then idle else minPid;
    }

    /** switch_process. */
    method SwitchProcess(pid: nat)
      requires Valid() && pid in live
      modifies this`table, this`current
      ensures Valid() && View() == old(View()).(last := old(View()).last[pid := tick], current := pid)
      ensures Changed(old(table), table, pid, old(table)[pid].value.(lastTick := tick)) && OnlyTicks(old(table), table)
    {
      hide ListIs, Sorted, Sound, LastTicks, Stored, Settled, OnlyTicks, Changed;
      InTable(table, live, tick, idle);
      TickKeeps(table, live, run, susp, tick, idle, pid, tick);
      table := Stored(table, pid, table[pid].value.(lastTick := tick));
      if current == pid {
        return;
      }
      current := pid;
    }

    /** proc_switch: a process that is being killed is not run, the scheduler's choice is. */
    method Switch(pid: nat)
      requires Valid() && pid in live && (pid == current || !table[pid].value.suspended)
      modifies this`table, this`current
      ensures Valid()
      ensures pid == old(current) ==> unchanged(this)
      ensures var s := old(View()); pid != old(current) ==>
        var q := if old(table)[pid].value.terminating then Fairness.Pick(s.list, s.last, idle) else pid;
        View() == s.(last := s.last[q := tick], current := q)
          && Changed(old(table), table, q, old(table)[q].value.(lastTick := tick))
      ensures OnlyTicks(old(table), table)
    {
      hide ListIs, Sorted, Sound, LastTicks, Settled, OnlyTicks, Changed;
      InTable(table, live, tick, idle);
      if current == pid {
        SameTicks(table);
        return;
      }
      var q := pid;
      if table[pid].value.terminating {
        q := DecideNext();
      }
      SwitchProcess(q);
    }

    /** The start of proc_yield: a new tick, charged to whoever is running. */
    method CountTick()
      requires Valid() && tick + 1 < MAX_TICK
      modifies this`table, this`tick
      ensures Valid() && View() == Ticked(old(View())) && OnlyTicks(old(table), table)
    {
      hide ListIs, Sorted, Sound, LastTicks, Stored, Settled, OnlyTicks;
      InTable(table, live, tick, idle);
      SameTicks(table);
      LaterSettled(table, live, tick, idle, tick + 1);
      if current in live {
        TickKeeps(table, live, run, susp, tick, idle, current, tick + 1);
      }
      tick := tick + 1;
      if current in live {
        table := Stored(table, current, table[current].value.(lastTick := tick));
      }
    }

    /** proc_yield computes the abstract yield. */
    method Yield()
      requires Valid() && tick + 1 < MAX_TICK
      modifies this`table, this`current, this`tick
      ensures Valid() && old(View()).Valid() && View() == Fairness.Yield(old(View()))
      ensures OnlyTicks(old(table), table)
    {
      hide Valid, Fairness.Pick, Changed, OnlyTicks;
      ViewValid();
      CountTick();
      ViewValid();
      var next := DecideNext();
      ghost var ticked := table;
      Switch(next);
      OnlyTicksTrans(old(table), ticked, table);
    }

    method SetWaiter(pid: nat, w: nat)
      requires Valid() && pid in live && w in live
      modifies this`table
      ensures Changed(old(table), table, pid, old(table)[pid].value.(waiter := Some(w)))
      ensures Valid() && View() == old(View())
    {
      hide ListIs, Sorted, Sound, LastTicks, Stored;
      StoreKeeps(table, live, run, susp, pid, table[pid].value.(waiter := Some(w)));
      TicksKept(table, Stored(table, pid, table[pid].value.(waiter := Some(w))), live);
      table := Stored(table, pid, table[pid].value.(waiter := Some(w)));
    }

    /**
     syscall_wait up to the point where the caller sleeps: it is suspended until `pid` is
     killed. If there is nothing to wait for it goes on at once.
     */
    method Wait(pid: nat) returns (sleeps: bool)
      requires Valid() && (pid in live && !table[pid].value.terminating ==> current in run.order && tick + 1 < MAX_TICK)
      modifies this
      ensures sleeps <==> pid in old(live) && !old(table)[pid].value.terminating
      ensures !sleeps ==> unchanged(this)
      ensures sleeps ==>
        && live == old(live)
        && run.order == Dropped(old(run.order), old(current)) && susp.order == [old(current)] + old(susp.order)
        && OnlyTicks(Sleeping(old(table), old(current), pid), table)
        && (if run.order == [] then current == idle else current in run.order)
      ensures Valid() && (sleeps ==> View() == Yielded(old(View()).(list := run.order)))
    {
      hide ListIs, Sorted, Sound, LastTicks, Stored, Settled, Fairness.Yield, Dropped;
      if pid !in live {
        return false;
      }
      InTable(table, live, tick, idle);
      if table[pid].value.terminating {
        return false;
      }
      Ready(table, live, run, susp, tick, idle);
      Suspend(current);
      ghost var suspended := table;
      SetWaiter(pid, current);
      ghost var asleep := table;
      SleepingIs(old(table), suspended, asleep, current, pid);
      ViewValid();
      Fairness.YieldsToReady(View());
      Yield();
      OnlyTicksFrom(Sleeping(old(table), old(current), pid), asleep, table);
      return true;
    }

    lemma ViewValid()
      requires Valid()
      ensures View().Valid()
      ensures View() == Fairness.Sched(run.order, LastTicks(table, live), tick, current, idle)
    {
      hide ListIs, Sorted, Sound;
      Ready(table, live, run, susp, tick, idle);
    }
  }

  lemma EndOfList(order: seq<nat>, k: nat, end: nat)
    requires forall p <- order :: p < end
    ensures Link(order, k, end) == end <==> k >= |order|
  {
    if k < |order| {
      assert order[k] in order;
    }
  }

  lemma Ready(ns: Table, live: set<nat>, run: ListView, susp: ListView, tick: nat, idle: nat)
    requires Sound(ns, live, run, susp) && Settled(ns, live, tick, idle)
    ensures forall p <- live :: p < |ns|
    ensures run.head == Link(run.order, 0, |ns|)
    ensures forall p <- run.order :: p in live && !ns[p].value.suspended && !ns[p].value.terminating
    ensures idle in live && !ns[idle].value.suspended && !ns[idle].value.terminating
  {
    forall p | p in run.order ensures p in run.rank { MemberOf(ns, run, p); }
    hide ListIs;
  }

  lemma RankOf(ns: Table, l: ListView, k: nat)
    requires ListIs(ns, l) && k < |l.order|
    ensures l.order[k] in l.rank && l.rank[l.order[k]] == k && l.order[k] < |ns|
  {
  }

  lemma NextOf(ns: Table, l: ListView, k: nat)
    requires ListIs(ns, l) && k < |l.order|
    ensures l.order[k] < |ns| && ns[l.order[k]].next == Link(l.order, k + 1, |ns|)
  {
    RankOf(ns, l, k);
    UnlinkNeighbours(ns, l.order, l.rank, |ns|, l.order[k]);
    hide Linked;
  }

  lemma RunIsLive(ns: Table, live: set<nat>, run: map<nat, nat>, susp: map<nat, nat>, p: nat)
    requires Sorted(ns, live, run, susp) && p in run
    ensures p in live
  {
  }

  lemma TickRead(ns: Table, live: set<nat>, tick: nat, idle: nat, p: nat)
    requires Settled(ns, live, tick, idle) && p in live
    ensures p < |ns| && (forall q <- live :: q < |ns|) && ns[p].value.lastTick == LastTicks(ns, live)[p] < MAX_TICK
  {
  }

  /** Where the scan is at, with the tick it reads and the link it follows. */
  lemma TickOf(ns: Table, live: set<nat>, run: ListView, susp: ListView, tick: nat, idle: nat, k: nat)
    requires Sound(ns, live, run, susp) && Settled(ns, live, tick, idle) && k < |run.order|
    ensures forall p <- live :: p < |ns|
    ensures var p := run.order[k];
      && p in live && p < |ns| && ns[p].next == Link(run.order, k + 1, |ns|)
      && ns[p].value.lastTick == LastTicks(ns, live)[p] < MAX_TICK
  {
    hide ListIs, Sorted, LastTicks;
    RankOf(ns, run, k);
    NextOf(ns, run, k);
    RunIsLive(ns, live, run.rank, susp.rank, run.order[k]);
    TickRead(ns, live, tick, idle, run.order[k]);
  }

  lemma LinksOf(ns: Table, l: ListView, k: nat)
    requires ListIs(ns, l) && 0 < k < |l.order| - 1
    ensures l.order[k - 1] in l.rank && l.order[k] in l.rank && l.order[k + 1] in l.rank && l.order[k] < |ns|
    ensures ns[l.order[k]].prev == l.order[k - 1] && ns[l.order[k]].next == l.order[k + 1]
  {
    RankOf(ns, l, k - 1);
    RankOf(ns, l, k);
    RankOf(ns, l, k + 1);
    UnlinkNeighbours(ns, l.order, l.rank, |ns|, l.order[k]);
    hide Linked, Ranked;
  }

  lemma HeadInTable(ns: Table, l: ListView)
    requires ListIs(ns, l)
    ensures l.head <= |ns|
  {
  }

  lemma LinksInTable(ns: Table, a: ListView, b: ListView, pid: nat)
    requires ListIs(ns, a) && ListIs(ns, b) && pid in a.rank
    ensures a.head <= |ns| && b.head <= |ns| && pid < |ns| && ns[pid].next <= |ns| && ns[pid].prev <= |ns|
  {
    UnlinkNeighbours(ns, a.order, a.rank, |ns|, pid);
    HeadInTable(ns, a);
    HeadInTable(ns, b);
    hide ListIs;
  }

  /** A new process, made ready. */
  method Start(s: Scheduler, pid: nat)
    requires s.Valid() && pid < |s.table| && pid !in s.live && pid !in s.run.order && pid !in s.susp.order
    requires pid != s.idle
    modifies s
    ensures s.Valid() && |s.table| == |old(s.table)| && s.live == old(s.live) + {pid}
    ensures s.run.order == [pid] + old(s.run.order) && s.susp == old(s.susp)
  {
    hide Scheduler.Valid;
    s.Create(pid);
    s.Enqueue(pid);
  }

  /** A scheduler in which `KilledTwice` is about process 2. */
  method ThreeReady() returns (s: Scheduler)
    ensures fresh(s) && s.Valid() && s.run.order == [3, 2, 1] && 2 in s.run.rank && 2 < |s.table|
    ensures s.table[2].prev == 3 && s.table[2].next == 1 && 3 in s.run.rank && 1 in s.run.rank
  {
    hide ListIs, Sorted, Settled;
    s := new Scheduler(8, 0);
    Start(s, 1);
    Start(s, 2);
    Start(s, 3);
    assert s.run.order == [3, 2, 1];
    LinksOf(s.table, s.run, 1);
  }

  /** A scheduler in which `ResumedAfterKill` is about process 1. */
  method KilledAsleep() returns (s: Scheduler)
    ensures fresh(s) && s.Valid() && 1 in s.live && 1 < |s.table|
    ensures s.table[1].value.suspended && s.table[1].value.terminating
  {
    hide Scheduler.Valid;
    s := new Scheduler(8, 0);
    s.Create(1);
    s.Enqueue(1);
    s.Suspend(1);
    s.Kill(1, 0);
  }
}
