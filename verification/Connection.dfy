/**
 How a connection of libraries/net/tcp/connection.cc closes down, driven by the
 state objects of connection_state.cc.

 A connection is finished when its state says so. `Sound` is what every step keeps,
 and its last line is the point: a connection is finished only after the remote has
 sent a FIN, and if ours was queued, only after the remote has acknowledged it.
 */
module Connections {
  import opened Bytes
  import opened Pools
  import opened Queues
  import opened ReceiveTables
  import opened ReceiveQueues
  import opened RingBuffers
  import SQ = SendQueues

  datatype State = SynRcvd | Established | LastAck | FinWait1 | Closing | FinWait2

  const FIN: nat := 1
  const SYN: nat := 2
  const INITIAL_SEQNBR: nat := 0xDEAD_BEEF
  const PHANTOM: seq<byte> := [33]

  predicate HasFin(flags: nat) { flags % 2 == 1 }

  predicate HasSyn(flags: nat) { flags / 2 % 2 == 1 }

  predicate HasAck(flags: nat) { flags / 16 % 2 == 1 }

  /** The bits of the flags, from FIN up as in section 3.1 of RFC 793. */
  lemma FlagBits(fin: bool, syn: bool, rst: bool, psh: bool, ack: bool, more: nat)
    ensures var flags := (if fin then 1 else 0) + (if syn then 2 else 0) + (if rst then 4 else 0)
                         + (if psh then 8 else 0) + (if ack then 16 else 0) + 32 * more;
      (HasFin(flags) <==> fin) && (HasSyn(flags) <==> syn) && (HasAck(flags) <==> ack)
  {
    var flags := (if fin then 1 else 0) + (if syn then 2 else 0) + (if rst then 4 else 0)
                 + (if psh then 8 else 0) + (if ack then 16 else 0) + 32 * more;
    assert flags / 2 == (if syn then 1 else 0) + (if rst then 2 else 0) + (if psh then 4 else 0)
                        + (if ack then 8 else 0) + 16 * more;
    assert flags / 16 == (if ack then 1 else 0) + 2 * more;
  }

  /** After the decision to close, by either side. */
  predicate ClosingDown(state: State) {
    state != SynRcvd && state != Established
  }

  /** The segment that carries our FIN, and the number that follows it. */
  ghost predicate OwnFin(log: seq<SQ.SendSegment>, end: nat) {
    exists i :: 0 <= i < |log| && log[i].flags == FIN && log[i].seqnbr + log[i].dataLength == end
  }

  ghost predicate EndsBy(s: SQ.SendSegment, pos: nat) {
    s.seqnbr + s.dataLength <= pos
  }

  /** None of the segments from number `from` of the log on is a FIN. */
  ghost predicate NoFin(log: seq<SQ.SendSegment>, from: nat) {
    forall i :: from <= i < |log| ==> log[i].flags != FIN
  }

  /** What is left of a connection when only closing down matters. */
  datatype View = View(state: State, finished: bool, hadRoom: bool, remoteFin: bool, finEnd: Option<nat>)

  ghost predicate Sound(v: View, log: seq<SQ.SendSegment>, ackPos: nat, writePos: nat) {
    && (v.finEnd.Some? ==> OwnFin(log, v.finEnd.value) && v.finEnd.value <= writePos)
    && (v.finEnd.None? ==> NoFin(log, 0))
    && (ClosingDown(v.state) ==> (v.finEnd.Some? <==> v.hadRoom))
    && (!ClosingDown(v.state) ==> v.finEnd.None? && !v.finished)
    && (v.state == LastAck || v.state == Closing ==> v.remoteFin)
    && (v.state == FinWait2 && v.finEnd.Some? ==> ackPos >= v.finEnd.value)
    && (v.finished ==> v.remoteFin && (v.finEnd.Some? ==> ackPos >= v.finEnd.value))
  }

  /** The handlers of the states, where they change more than the queues. */
  function Consumed(v: View): View {
    match v.state
    case LastAck | Closing => v.(finished := true)
    case FinWait1 => v.(state := FinWait2)
    case _ => v
  }

  function OnArrival(v: View, flags: nat, length: nat, consumedAll: bool): View {
    var early := v.(remoteFin := v.remoteFin || HasFin(flags),
                    state := if v.state == SynRcvd && HasAck(flags) then Established
                             else if v.state == FinWait1 && HasFin(flags) && length == 0 then Closing
                             else v.state);
    if consumedAll then Consumed(early) else early
  }

  lemma ConsumedSound(v: View, log: seq<SQ.SendSegment>, ackPos: nat, writePos: nat)
    requires Sound(v, log, ackPos, writePos) && ackPos == writePos
    ensures Sound(Consumed(v), log, ackPos, writePos)
  {
  }

  /** Acknowledgements and further segments other than a FIN do no harm. */
  lemma SoundGrows(v: View, log: seq<SQ.SendSegment>, ackPos: nat, writePos: nat,
                   log': seq<SQ.SendSegment>, ackPos': nat, writePos': nat)
    requires Sound(v, log, ackPos, writePos) && log <= log' && ackPos <= ackPos' && writePos <= writePos'
    requires NoFin(log', |log|)
    ensures Sound(v, log', ackPos', writePos')
  {
    if v.finEnd.Some? {
      var i :| 0 <= i < |log| && log[i].flags == FIN && log[i].seqnbr + log[i].dataLength == v.finEnd.value;
      assert log'[i] == log[i];
    }
  }

  /** What queueing our FIN, or failing to, does. */
  function Fin(v: View, state: State, queued: bool, end: nat): View {
    v.(state := state, hadRoom := queued, finEnd := if queued then Some(end) else None)
  }

  lemma FinSound(v: View, log: seq<SQ.SendSegment>, ackPos: nat, writePos: nat, state: State, queued: bool,
                 log': seq<SQ.SendSegment>, end: nat)
    requires Sound(v, log, ackPos, writePos) && v.state == Established
    requires (state == FinWait1 || (state == LastAck && v.remoteFin))
    requires queued ==> exists s :: log' == log + [s] && s.flags == FIN && s.seqnbr + s.dataLength == end
    requires !queued ==> log' == log && end == writePos
    requires writePos <= end
    ensures Sound(Fin(v, state, queued, end), log', ackPos, end)
  {
    if queued {
      assert log'[|log|].flags == FIN;
    }
  }

  lemma FinSeen(v: View, log: seq<SQ.SendSegment>, ackPos: nat, writePos: nat, items: Segments)
    requires Sound(v, log, ackPos, writePos) && RxOk(items, v.remoteFin)
    ensures Sound(v.(remoteFin := true), log, ackPos, writePos) && RxOk(items, true)
  {
  }

  /** The unread segments: every FIN among them has been received. */
  ghost predicate RxOk(items: Segments, remoteFin: bool) {
    forall i <- items :: items[i].seqnbr < MAX_SEQNBR && (HasFin(items[i].flags) ==> remoteFin)
  }

  /** A SYN or FIN takes up a number but is not sent as data. */
  function Phantom(flags: nat, seqnbr: nat): SQ.SendSegment {
    SQ.SendSegment(flags, seqnbr, 1, 0)
  }

  /** A segment in sequence that is answered in kind: a SYN while waiting for the handshake, a FIN after it. */
  predicate Replies(state: State, flags: nat) {
    (state == SynRcvd && HasSyn(flags)) || (state == Established && HasFin(flags))
  }

  /** How many numbers, and so bytes of the send buffer, are in use between the two positions. */
  ghost function Unacked(writePos: nat, ackPos: nat): int {
    writePos - ackPos
  }

  /** A connection at one moment: what closing down depends on, and how much is queued either way. */
  datatype Moment = Moment(v: View, finPos: nat, ackPos: nat, writePos: nat, segs: nat, unread: bool) {

    /** It was time for our FIN at some write position from `from` on, and it was queued exactly if it fitted. */
    ghost predicate Decided(from: nat) {
      from <= finPos <= writePos && (v.hadRoom <==> Unacked(finPos, ackPos) < SQ.WINDOW)
    }

    /** Something may still have to be answered. */
    ghost predicate MayReply() {
      v.state == Established || (v.state == SynRcvd && unread)
    }

    /** The send queue has room for one more segment. */
    ghost predicate Room() {
      segs < SQ.MAX_SEGMENTS && writePos + 1 < UINT32
    }
  }

  /**
   What reading segments in sequence does to a connection; `quiet` if the application does
   nothing meanwhile. Then at most one answer is queued.
   */
  ghost predicate Leads(a: Moment, b: Moment, quiet: bool) {
    && b.v.remoteFin == a.v.remoteFin && (a.v.finished ==> b.v.finished) && (b.unread ==> a.unread)
    && (b.v.finished && !a.v.finished ==> a.v.state == FinWait2)
    && b.ackPos == a.ackPos && a.writePos <= b.writePos
    && (b.v.state == a.v.state || (a.v.state == Established && (b.v.state == LastAck || b.v.state == FinWait1)))
    && (ClosingDown(a.v.state) ==> b.v == a.v.(finished := b.v.finished) && b.finPos == a.finPos)
    && (ClosingDown(a.v.state) ==> b.writePos == a.writePos && b.segs == a.segs)
    && (b.v.state != a.v.state ==> b.Decided(a.writePos))
    && (quiet ==> QuietlyLeads(a, b))
  }

  ghost predicate QuietlyLeads(a: Moment, b: Moment) {
    && b.segs <= a.segs + 1 && b.writePos <= a.writePos + 1
    && (b.v.state != a.v.state ==> b.v.state == LastAck && b.finPos == a.writePos)
    && (!a.MayReply() || b.MayReply() ==> b.writePos == a.writePos && b.segs <= a.segs)
  }

  /** What passing a segment with these flags to the state does; `ok` unless the send queue did not take a write. */
  ghost predicate Hears(a: Moment, b: Moment, flags: nat, actions: seq<Action>, ok: bool) {
    && b.v.remoteFin == a.v.remoteFin && b.ackPos == a.ackPos && a.writePos <= b.writePos && b.unread == a.unread
    && (b.v.finished <==> a.v.finished || (a.v.state == FinWait2 && HasFin(flags)))
    && (a.v.state != Established ==> b.v.state == a.v.state)
    && (a.v.state == Established && HasFin(flags) ==> b.v.state == if ok then LastAck else Established)
    && (a.v.state == Established && !HasFin(flags) ==>
          && (b.v.state == Established || (b.v.state == FinWait1 && CloseDown in actions))
          && (ok && CloseDown in actions ==> b.v.state == FinWait1))
    && (b.v.state != a.v.state ==> b.Decided(a.writePos) && (b.v.state == LastAck ==> b.finPos == a.writePos))
    && (ClosingDown(a.v.state) ==> ok && b.v == a.v.(finished := b.v.finished) && b.finPos == a.finPos)
    && (a.v.state != Established || HasFin(flags) || actions == [] ==>
          var queued := ok && Replies(a.v.state, flags) && Unacked(a.writePos, a.ackPos) < SQ.WINDOW;
          && (!Replies(a.v.state, flags) ==> ok)
          && b.writePos == (if queued then a.writePos + 1 else a.writePos)
          && b.segs == (if queued then a.segs + 1 else a.segs))
  }

  /** Reading a segment is taking it out of the table and passing it on. */
  lemma HearsLeads(a: Moment, m: Moment, b: Moment, flags: nat, actions: seq<Action>, ok: bool)
    requires a.unread && m == a.(unread := m.unread) && (a.v.state == SynRcvd ==> !m.unread)
    requires Hears(m, b, flags, actions, ok)
    ensures Leads(a, b, actions == [])
    ensures b.v.finished <==> a.v.finished || (a.v.state == FinWait2 && HasFin(flags))
    ensures ok && a.v.state == Established ==>
      b.v.state == if HasFin(flags) then LastAck else if CloseDown in actions then FinWait1 else Established
    ensures ClosingDown(a.v.state) ==> ok
    ensures actions == [] && !Replies(a.v.state, flags) ==> ok
  {
    hide HasFin, HasSyn;
  }

  lemma LeadsNowhere(a: Moment, quiet: bool)
    ensures Leads(a, a, quiet)
  {
  }

  lemma LeadsOn(a: Moment, b: Moment, c: Moment, quiet: bool, more: bool)
    requires Leads(a, b, quiet) && Leads(b, c, more) && (quiet ==> more)
    ensures Leads(a, c, quiet)
  {
  }

  lemma LeadsToRoom(a: Moment, b: Moment)
    requires Leads(a, b, true) && a.Room() && b.unread
    ensures ClosingDown(b.v.state) || b.Room()
  {
  }

  /** What the application may do when it is handed data. */
  datatype Action = SendData(data: seq<byte>) | CloseDown

  // What the handlers do, as functions of the state and of what is queued for sending.

  datatype Core = Core(state: State, finished: bool, log: seq<SQ.SendSegment>, stream: seq<byte>,
                       writePos: nat, ackPos: nat, segs: nat)

  /** A segment goes to the end of the send queue if its bytes fit and a segment is free. */
  ghost function Put(c: Core, flags: nat, data: seq<byte>, sendLength: nat): Core {
    if |data| <= SQ.WINDOW - Unacked(c.writePos, c.ackPos) && c.segs < SQ.MAX_SEGMENTS then
      c.(log := c.log + [SQ.SendSegment(flags, c.writePos, |data|, sendLength)], stream := c.stream + data,
         writePos := c.writePos + |data|, segs := c.segs + 1)
    else c
  }

  ghost function Acted(c: Core, action: Action): Core {
    match action
    case SendData(data) => Put(c, 0, data, |data|)
    case CloseDown => if c.state == Established then Put(c, FIN, PHANTOM, 0).(state := FinWait1) else c
  }

  ghost function ActedAll(c: Core, actions: seq<Action>): Core {
    if actions == [] then c else Acted(ActedAll(c, actions[..|actions| - 1]), actions[|actions| - 1])
  }

  /** A segment in sequence: a SYN and a FIN are answered in kind, data goes to the application. */
  ghost function Sequenced(c: Core, segment: Segment, actions: seq<Action>): Core {
    match c.state
    case SynRcvd => if HasSyn(segment.flags) then Put(c, SYN, PHANTOM, 0) else c
    case Established =>
      if HasFin(segment.flags) then Put(c, FIN, PHANTOM, 0).(state := LastAck) else ActedAll(c, actions)
    case FinWait2 => if HasFin(segment.flags) then c.(finished := true) else c
    case _ => c
  }

  function Actions(app: seq<seq<Action>>, k: nat): seq<Action> {
    if k < |app| then app[k] else []
  }

  /** The table without the segment at `i`, which has been read. */
  ghost function Removed(t: Table, i: nat): Table
    requires i in t.items
  {
    Table(t.items - {i}, (t.cursor + t.items[i].length) % UINT32)
  }

  /** What a step has read, slot by slot: each time the front segment, at the cursor. */
  datatype Reading = Start(t: Table) | Then(before: Reading, slot: nat) {

    ghost predicate Ok()
      decreases this
    {
      Then? ==> before.Ok() && IsFront(before.End().items, slot) && slot in before.End().items
                && before.End().items[slot].seqnbr == before.End().cursor
    }

    /** What is left. */
    ghost function End(): Table
      decreases this
    {
      if Start? then t else if slot in before.End().items then Removed(before.End(), slot) else before.End()
    }

    ghost function From(): Table {
      if Start? then t else before.From()
    }

    ghost function Count(): nat {
      if Start? then 0 else before.Count() + 1
    }
  }

  /** What the states and the application make of the segments read. */
  ghost function SequencedAll(c: Core, read: Reading, app: seq<seq<Action>>): Core
    decreases read
  {
    match read
    case Start(_) => c
    case Then(before, slot) =>
      var r := SequencedAll(c, before, app);
      if slot in before.End().items then Sequenced(r, before.End().items[slot], Actions(app, before.Count())) else r
  }

  /** Nothing more can be read. */
  ghost predicate AtGap(t: Table) {
    forall i :: IsFront(t.items, i) ==> t.items[i].seqnbr != t.cursor
  }

  lemma {:induction false} ReadsCount(read: Reading)
    requires read.Ok()
    ensures |read.End().items| + read.Count() == |read.From().items|
  {
    if read.Then? {
      ReadsCount(read.before);
      MinusCount(read.before.End().items, read.slot);
    }
  }

  /** The only segment there is, at the cursor, is read, and nothing else. */
  lemma OnlyOneRead(read: Reading, i: nat)
    requires read.Ok() && AtGap(read.End()) && i in read.From().items
    requires read.From().items == map[i := read.From().items[i]] && read.From().items[i].seqnbr == read.From().cursor
    ensures read == Then(Start(read.From()), i) && read.End() == Table(map[], Removed(read.From(), i).cursor)
  {
    ReadsCount(read);
    assert IsFront(read.From().items, i);
    assert read.Then? && read.before.Start?;
    assert read.From().items - {i} == map[];
  }

  /** A FIN is answered by ours, right behind what is queued, exactly if there is room for it. */
  lemma FinAnswered(c: Core, segment: Segment, actions: seq<Action>)
    requires c.state == Established && HasFin(segment.flags)
    ensures var r := Sequenced(c, segment, actions);
      && r.state == LastAck && r.finished == c.finished
      && r.log == if c.writePos - c.ackPos < SQ.WINDOW && c.segs < SQ.MAX_SEGMENTS
         then c.log + [SQ.SendSegment(FIN, c.writePos, 1, 0)] else c.log
  {
  }

  /** And a SYN by ours. */
  lemma SynAnswered(c: Core, segment: Segment, actions: seq<Action>)
    requires c.state == SynRcvd && HasSyn(segment.flags)
    ensures var r := Sequenced(c, segment, actions);
      && r.state == SynRcvd
      && r.log == if c.writePos - c.ackPos < SQ.WINDOW && c.segs < SQ.MAX_SEGMENTS
         then c.log + [SQ.SendSegment(SYN, c.writePos, 1, 0)] else c.log
  {
  }

  function Said(actions: seq<Action>): seq<byte> {
    if actions == [] then [] else
      var k := |actions| - 1;
      Said(actions[..k]) + if actions[k].SendData? then actions[k].data else PHANTOM
  }

  /** What the application says when handed data is queued in its order, if all of it fits. */
  lemma {:induction false} DataAnswered(c: Core, actions: seq<Action>)
    requires CloseDown !in actions && |Said(actions)| <= SQ.WINDOW - (c.writePos - c.ackPos)
    requires c.segs + |actions| <= SQ.MAX_SEGMENTS
    ensures var r := ActedAll(c, actions);
      && r.state == c.state && r.finished == c.finished && r.ackPos == c.ackPos && r.segs == c.segs + |actions|
      && r.stream == c.stream + Said(actions) && r.writePos == c.writePos + |Said(actions)|
      && |r.log| == |c.log| + |actions| && r.log[..|c.log|] == c.log
      && forall i :: |c.log| <= i < |r.log| ==> r.log[i].flags == 0
  {
    if actions != [] {
      var k := |actions| - 1;
      assert actions[k] in actions;
      DataAnswered(c, actions[..k]);
    }
  }

  /** The segments to be read once one has arrived: an established connection takes any, one that waits a FIN. */
  function Arriving(state: State, segments: PoolModel<Segment>, flags: nat, seqnbr: nat, length: nat,
                    accepted: bool): PoolModel<Segment>
    requires segments.Valid()
  {
    var fin := HasFin(flags) && length == 0;
    var sequenced := state == Established || ((state == FinWait1 || state == FinWait2) && fin);
    if sequenced && accepted && !segments.Full() then
      segments.EmplaceAnywhere(Segment(flags, seqnbr, if fin then 1 else length))
    else segments
  }

  /**
   What on_receive does to a connection, all in all; `all` if everything was acknowledged,
   `quiet` if the application does nothing.
   */
  ghost predicate Outcome(a: Moment, b: Moment, flags: nat, length: nat, all: bool, quiet: bool) {
    && b.v.remoteFin == (a.v.remoteFin || HasFin(flags)) && (a.v.finished ==> b.v.finished)
    && (all && (a.v.state == LastAck || a.v.state == Closing) ==> b.v.finished)
    && (all && a.v.state == FinWait1 && HasFin(flags) && length == 0 ==> b.v.finished)
    && (b.v.finished && !a.v.finished ==> (all && ClosingDown(a.v.state)) || a.v.state == FinWait2)
    && (if ClosingDown(a.v.state) then
          && ClosingDown(b.v.state) && b.finPos == a.finPos && b.writePos == a.writePos
          && b.v.hadRoom == a.v.hadRoom && b.v.finEnd == a.v.finEnd
        else
          var arrived := if HasAck(flags) then Established else a.v.state;
          && (b.v.state != arrived ==> (b.v.state == LastAck || b.v.state == FinWait1) && b.Decided(a.writePos))
          && (quiet ==>
                && b.segs <= a.segs + 1 && b.writePos <= a.writePos + 1
                && (b.v.state != arrived ==> b.v.state == LastAck && b.finPos == a.writePos)
                && (b.v.state == Established ==> b.writePos == a.writePos)))
  }

  /**
   A segment has been read by an established connection: the cursor is behind it, a FIN has
   been answered, and for data the application has had its say.
   */
  ghost predicate AtOnce(c: Core, flags: nat, seqnbr: nat, length: nat, app: seq<seq<Action>>, t: Table, c': Core) {
    var n := if HasFin(flags) && length == 0 then 1 else length;
    && t == Table(map[], (seqnbr + n) % UINT32)
    && (HasFin(flags) ==> c' == Put(c, FIN, PHANTOM, 0).(state := LastAck))
    && (!HasFin(flags) ==> c' == if app == [] then c else ActedAll(c, app[0]))
  }

  /** A segment that arrives at the cursor with nothing else there is read at once. */
  lemma ReadAtOnce(segments: PoolModel<Segment>, flags: nat, seqnbr: nat, length: nat, read: Reading, c: Core,
                   app: seq<seq<Action>>)
    requires segments.Valid() && segments.items == map[] && segments.capacity == MAX_SEGMENTS
    requires read.From() == Table(Arriving(Established, segments, flags, seqnbr, length, true).items, seqnbr)
    requires read.Ok() && AtGap(read.End())
    requires c.state == Established
    ensures AtOnce(c, flags, seqnbr, length, app, read.End(), SequencedAll(c, read, app))
  {
    hide AtGap, IsFront, Acted;
    OnlyOneRead(read, segments.Slot());
  }

  lemma EstablishedStays(v: View, flags: nat, length: nat, all: bool)
    requires v.state == Established
    ensures OnArrival(v, flags, length, all).state == Established
  {
  }

  lemma OutcomeIs(a: Moment, m: Moment, b: Moment, flags: nat, length: nat, all: bool, quiet: bool)
    requires m.v == OnArrival(a.v, flags, length, all) && Leads(m, b, quiet) && (all ==> HasAck(flags))
    requires m.writePos == a.writePos && m.finPos == a.finPos && m.segs <= a.segs
    ensures Outcome(a, b, flags, length, all, quiet)
  {
    hide HasFin, HasAck;
  }

  lemma SameAck(a: Moment, b: Moment, quiet: bool)
    requires Leads(a, b, quiet)
    ensures b.ackPos == a.ackPos
  {
  }

  /** Where a step has got to. */
  ghost predicate Reached(m0: Moment, c0: Core, read: Reading, app: seq<seq<Action>>, m: Moment, c: Core) {
    Leads(m0, m, app == []) && read.Ok() && c == SequencedAll(c0, read, app)
  }

  lemma ReachedStart(m: Moment, t: Table, c: Core, app: seq<seq<Action>>)
    ensures Reached(m, c, Start(t), app, m, c)
    ensures Start(t).From() == t && Start(t).End() == t && Start(t).Count() == 0
  {
    LeadsNowhere(m, app == []);
  }

  lemma ReachedRoom(m0: Moment, c0: Core, read: Reading, app: seq<seq<Action>>, m: Moment, c: Core)
    requires Reached(m0, c0, read, app, m, c) && m.unread
    ensures ClosingDown(m0.v.state) ==> ClosingDown(m.v.state)
    ensures app == [] && m0.Room() ==> ClosingDown(m.v.state) || m.Room()
    ensures app == [] ==> Actions(app, read.Count()) == []
  {
  }

  lemma ReachedOn(m0: Moment, c0: Core, read: Reading, app: seq<seq<Action>>, m: Moment, c: Core, idx: nat,
                  m': Moment, c': Core, ok: bool)
    requires Reached(m0, c0, read, app, m, c) && Leads(m, m', Actions(app, read.Count()) == [])
    requires IsFront(read.End().items, idx) && idx in read.End().items
    requires read.End().items[idx].seqnbr == read.End().cursor
    requires ok ==> c' == Sequenced(c, read.End().items[idx], Actions(app, read.Count()))
    ensures Leads(m0, m', app == []) && Then(read, idx).Ok() && Then(read, idx).End() == Removed(read.End(), idx)
    ensures Then(read, idx).From() == read.From() && Then(read, idx).Count() == read.Count() + 1
    ensures ok ==> Reached(m0, c0, Then(read, idx), app, m', c')
  {
    hide Leads, Sequenced, IsFront;
    LeadsOn(m0, m, m', app == [], Actions(app, read.Count()) == []);
  }

  lemma ReachedEnd(m0: Moment, c0: Core, read: Reading, app: seq<seq<Action>>, m: Moment, c: Core)
    requires Reached(m0, c0, read, app, m, c)
    ensures Leads(m0, m, app == []) && read.Ok() && c == SequencedAll(c0, read, app)
  {
  }

  method NewSendQueue() returns (tx: SQ.SendQueue)
    ensures tx.Valid() && fresh(tx) && tx.base == INITIAL_SEQNBR && tx.log == [] && tx.stream == []
    ensures tx.ackPos == tx.writePos == INITIAL_SEQNBR && tx.Segs() == []
    ensures fresh(tx.buffer) && fresh(tx.buffer.queue) && fresh(tx.buffer.queue.items) && fresh(tx.segments)
    ensures fresh(tx.segments.items)
  {
    hide SQ.Consistent;
    tx := new SQ.SendQueue();
    tx.Reset(INITIAL_SEQNBR);
  }

  class Connection {
    var state: State
    var finished: bool
    /** The segments received and not yet in sequence, and the next number in sequence. */
    var segments: PoolModel<Segment>
    var cursor: nat
    const tx: SQ.SendQueue
    /** Our FIN, once it was time for it, found room in the send queue. */
    ghost var hadRoom: bool
    /** The remote has sent a FIN. */
    ghost var remoteFin: bool
    ghost var finEnd: Option<nat>
    /** The write position when it was time for our FIN. */
    ghost var finPos: nat

    ghost function Status(): View
      reads this
    {
      View(state, finished, hadRoom, remoteFin, finEnd)
    }

    ghost predicate Valid()
      reads this, tx, tx.buffer, tx.buffer.queue, tx.buffer.queue.items, tx.segments, tx.segments.items
    {
      && tx.Valid() && segments.Valid() && segments.capacity == MAX_SEGMENTS && cursor < UINT32
      && RxOk(segments.items, remoteFin)
      && (state == SynRcvd ==> |segments.items| <= 1)
      && Sound(Status(), tx.log, tx.ackPos, tx.writePos)
    }

    /** What a listening connection makes of a SYN: it is the first segment of the new connection. */
    constructor (flags: nat, seqnbr: nat)
      requires HasSyn(flags) && seqnbr < MAX_SEQNBR
      ensures Valid() && Status() == View(SynRcvd, false, false, HasFin(flags), None)
      ensures cursor == seqnbr && segments.items == map[0 := Segment(flags, seqnbr, 1)]
      ensures fresh(tx) && tx.base == INITIAL_SEQNBR && tx.log == []
      ensures tx.ackPos == tx.writePos == INITIAL_SEQNBR && tx.Segs() == []
      ensures fresh(tx.buffer) && fresh(tx.buffer.queue) && fresh(tx.buffer.queue.items) && fresh(tx.segments)
      ensures fresh(tx.segments.items)
    {
      hide SQ.SendQueue.Valid, PoolModel.Valid, PoolModel.EmplaceAnywhere;
      state, finished := SynRcvd, false;
      segments, cursor := Empty(MAX_SEGMENTS).EmplaceAnywhere(Segment(flags, seqnbr, 1)), seqnbr;
      var queue := NewSendQueue();
      tx := queue;
      hadRoom, remoteFin, finEnd, finPos := false, HasFin(flags), None, 0;
    }

    ghost function Unread(): Table
      reads this
    {
      Table(segments.items, cursor)
    }

    ghost function Sending(): Core
      requires tx.Shape()
      reads this, tx, tx.buffer, tx.buffer.queue, tx.segments, tx.segments.items
    {
      Core(state, finished, tx.log, tx.stream, tx.writePos, tx.ackPos, |tx.Segs()|)
    }

    ghost function Now(): Moment
      requires tx.Shape()
      reads this, tx, tx.buffer, tx.buffer.queue, tx.segments, tx.segments.items
    {
      Moment(Status(), finPos, tx.ackPos, tx.writePos, |tx.Segs()|, segments.items != map[])
    }

    /**
     Queues a segment if it fits. Where the send queue takes the bytes and has no
     segment for them, `ok` is false and the model goes no further.
     */
    method Transmit(flags: nat, data: seq<byte>, sendLength: nat) returns (ok: bool)
      requires tx.Valid() && sendLength <= |data|
      modifies tx`writePos, tx`log, tx`stream, tx.buffer.queue, tx.buffer.queue.items, tx.segments, tx.segments.items
      ensures tx.Valid() && ok == old(tx.Takes(|data|)) && (!ok ==> tx.Exhausted())
      ensures ok ==> Sending() == Put(old(Sending()), flags, data, sendLength)
      ensures var queued := ok && |data| <= SQ.WINDOW - Unacked(old(tx.writePos), tx.ackPos)
                            && |old(tx.Segs())| < SQ.MAX_SEGMENTS;
        var s := SQ.SendSegment(flags, old(tx.writePos), |data|, sendLength);
        && tx.writePos == (if queued then old(tx.writePos) + |data| else old(tx.writePos))
        && tx.stream == (if queued then old(tx.stream) + data else old(tx.stream))
        && tx.log == (if queued then old(tx.log) + [s] else old(tx.log))
        && tx.Segs() == (if queued then old(tx.Segs()) + [s] else old(tx.Segs()))
    {
      hide SQ.Consistent, RingBuffer.Valid, RingBuffer.Contents, Queue.Valid, Queue.Contents;
      tx.Buffered();
      tx.TakesOrExhausted(|data|);
      ok := tx.Takes(|data|);
      if ok {
        var queued := tx.WriteBack(SQ.SendSegment(flags, tx.writePos, 0, 0), data, sendLength);
      }
    }

    /** A write of one byte that is taken and fits finds a free segment. */
    lemma TakesWithRoom()
      requires tx.Valid()
      ensures tx.Takes(1) && Unacked(tx.writePos, tx.ackPos) < SQ.WINDOW ==> |tx.Segs()| < SQ.MAX_SEGMENTS
    {
      tx.Buffered();
      hide SQ.Consistent;
    }

    /** Queues our FIN and moves on, whether there was room for it or not. */
    method SendFin(next: State) returns (ok: bool)
      requires Valid() && state == Established && (next == FinWait1 || (next == LastAck && remoteFin))
      modifies this`state, this`hadRoom, this`finEnd, this`finPos
      modifies tx`writePos, tx`log, tx`stream, tx.buffer.queue, tx.buffer.queue.items, tx.segments, tx.segments.items
      ensures Valid() && ok == old(tx.Takes(1)) && (!ok ==> tx.Exhausted())
      ensures ok ==> state == next && finPos == old(tx.writePos) && Now().Decided(old(tx.writePos))
      ensures ok ==> Sending() == Put(old(Sending()), FIN, PHANTOM, 0).(state := next)
      ensures var queued := ok && hadRoom;
        && tx.log == (if queued then old(tx.log) + [Phantom(FIN, old(tx.writePos))] else old(tx.log))
        && tx.stream == (if queued then old(tx.stream) + PHANTOM else old(tx.stream))
        && tx.writePos == (if queued then old(tx.writePos) + 1 else old(tx.writePos))
        && |tx.Segs()| == (if queued then |old(tx.Segs())| + 1 else |old(tx.Segs())|)
      ensures !ok ==> unchanged(this)
    {
      hide SQ.Consistent, Sound, PoolModel.Valid, RxOk, RingBuffer.Valid, RingBuffer.Contents, Queue.Valid,
        Queue.Contents;
      hide SQ.SendQueue.Exhausted;
      TakesWithRoom();
      hide SQ.SendQueue.Takes;
      ok := Transmit(FIN, PHANTOM, 0);
      if ok {
        ghost var queued := tx.writePos > old(tx.writePos);
        ghost var s := SQ.SendSegment(FIN, old(tx.writePos), 1, 0);
        assert queued ==> tx.log == old(tx.log) + [s];
        FinSound(Status(), old(tx.log), tx.ackPos, old(tx.writePos), next, queued, tx.log, tx.writePos);
        state, hadRoom, finEnd := next, queued, if queued then Some(tx.writePos) else None;
        finPos := old(tx.writePos);
      }
    }

    method Close() returns (ok: bool)
      requires Valid()
      modifies this`state, this`hadRoom, this`finEnd, this`finPos
      modifies tx`writePos, tx`log, tx`stream, tx.buffer.queue, tx.buffer.queue.items, tx.segments, tx.segments.items
      ensures Valid() && (ok <==> old(state) == Established ==> old(tx.Takes(1))) && (!ok ==> tx.Exhausted())
      ensures state == if ok && old(state) == Established then FinWait1 else old(state)
      ensures ok && old(state) == Established ==> finPos == old(tx.writePos) && Now().Decided(old(tx.writePos))
      ensures !ok || old(state) != Established ==> unchanged(this)
      ensures ok ==> Sending() == Acted(old(Sending()), CloseDown)
      ensures var queued := ok && old(state) == Established && hadRoom;
        && tx.log == (if queued then old(tx.log) + [Phantom(FIN, old(tx.writePos))] else old(tx.log))
        && tx.stream == (if queued then old(tx.stream) + PHANTOM else old(tx.stream))
        && tx.writePos == (if queued then old(tx.writePos) + 1 else old(tx.writePos))
        && |tx.Segs()| == (if queued then |old(tx.Segs())| + 1 else |old(tx.Segs())|)
    {
      hide Valid, SQ.SendQueue.Takes;
      ok := true;
      if state == Established {
        ok := SendFin(FinWait1);
      }
    }

    /** A send of the application, which is let through in every state. */
    method Send(data: seq<byte>) returns (ok: bool)
      requires Valid()
      modifies tx`writePos, tx`log, tx`stream, tx.buffer.queue, tx.buffer.queue.items, tx.segments, tx.segments.items
      ensures Valid() && ok == old(tx.Takes(|data|)) && (!ok ==> tx.Exhausted())
      ensures ok ==> Sending() == Acted(old(Sending()), SendData(data))
      ensures var fits := ok && |data| <= SQ.WINDOW - Unacked(old(tx.writePos), tx.ackPos);
        && tx.stream == (if fits then old(tx.stream) + data else old(tx.stream))
        && tx.writePos == (if fits then old(tx.writePos) + |data| else old(tx.writePos))
        && |old(tx.Segs())| <= |tx.Segs()| <= |old(tx.Segs())| + 1
    {
      hide SQ.Consistent, Sound, PoolModel.Valid, RxOk, RingBuffer.Valid, RingBuffer.Contents, Queue.Valid,
        Queue.Contents;
      tx.Buffered();
      ok := Transmit(0, data, |data|);
      SoundGrows(Status(), old(tx.log), tx.ackPos, old(tx.writePos), tx.log, tx.ackPos, tx.writePos);
    }

    /** What the application does with data it is handed, up to a write that is not taken. */
    method Respond(actions: seq<Action>) returns (ok: bool)
      requires Valid() && state == Established
      modifies this`state, this`hadRoom, this`finEnd, this`finPos
      modifies tx`writePos, tx`log, tx`stream, tx.buffer.queue, tx.buffer.queue.items, tx.segments, tx.segments.items
      ensures Valid() && old(tx.writePos) <= tx.writePos && (!ok ==> tx.Exhausted())
      ensures state == Established || (state == FinWait1 && CloseDown in actions && Now().Decided(old(tx.writePos)))
      ensures ok ==> Sending() == ActedAll(old(Sending()), actions) && (CloseDown in actions ==> state == FinWait1)
      ensures actions == [] ==>
        ok && tx.log == old(tx.log) && tx.writePos == old(tx.writePos) && |tx.Segs()| == |old(tx.Segs())|
    {
      hide SQ.Consistent, Sound, PoolModel.Valid, RxOk, RingBuffer.Valid, RingBuffer.Contents, Queue.Valid,
        Queue.Contents, Acted;
      ok := true;
      for i := 0 to |actions|
        invariant Valid() && old(tx.writePos) <= tx.writePos && ok
        invariant state == if CloseDown in actions[..i] then FinWait1 else Established
        invariant state == FinWait1 ==> Now().Decided(old(tx.writePos))
        invariant Sending() == ActedAll(old(Sending()), actions[..i])
      {
        assert actions[..i + 1][..i] == actions[..i];
        ok := Act(actions[i]);
        if !ok {
          return;
        }
      }
      assert actions[..|actions|] == actions;
    }

    method Act(action: Action) returns (ok: bool)
      requires Valid()
      modifies this`state, this`hadRoom, this`finEnd, this`finPos
      modifies tx`writePos, tx`log, tx`stream, tx.buffer.queue, tx.buffer.queue.items, tx.segments, tx.segments.items
      ensures Valid() && old(tx.writePos) <= tx.writePos && (!ok ==> tx.Exhausted())
      ensures state == if ok && old(state) == Established && action.CloseDown? then FinWait1 else old(state)
      ensures old(state) != Established ==> unchanged(this)
      ensures ok && old(state) == Established && action.CloseDown? ==> Now().Decided(old(tx.writePos))
      ensures ok ==> Sending() == Acted(old(Sending()), action)
    {
      hide Valid, SQ.SendQueue.Takes;
      match action
      case SendData(data) => ok := Send(data);
      case CloseDown => ok := Close();
    }

    /** Hands a segment to the receive queue, whose window test `accepted` stands for. */
    method Sequence(segment: Segment, accepted: bool)
      requires segments.Valid() && segments.capacity == MAX_SEGMENTS && RxOk(segments.items, remoteFin)
      requires segment.seqnbr < MAX_SEQNBR && (HasFin(segment.flags) ==> remoteFin)
      modifies this`segments
      ensures segments.Valid() && segments.capacity == MAX_SEGMENTS && RxOk(segments.items, remoteFin)
      ensures segments ==
        if accepted && !old(segments).Full() then old(segments).EmplaceAnywhere(segment) else old(segments)
    {
      hide PoolModel.Valid, PoolModel.EmplaceAnywhere;
      if accepted && !segments.Full() {
        segments := segments.EmplaceAnywhere(segment);
      }
    }

    /** What the states do with a segment as it arrives. A FIN without data counts as one byte. */
    method EarlyRecv(flags: nat, seqnbr: nat, length: nat, accepted: bool)
      requires Valid() && seqnbr < MAX_SEQNBR && (HasFin(flags) ==> remoteFin)
      modifies this`segments, this`state
      ensures Valid()
      ensures state ==
        if old(state) == SynRcvd && HasAck(flags) then Established
        else if old(state) == FinWait1 && HasFin(flags) && length == 0 then Closing
        else old(state)
      ensures segments == Arriving(old(state), old(segments), flags, seqnbr, length, accepted)
    {
      hide PoolModel.Valid, PoolModel.EmplaceAnywhere, SQ.SendQueue.Valid, RxOk;
      match state
      case SynRcvd =>
        if HasAck(flags) {
          state := Established;
        }
      case Established =>
        Sequence(Segment(flags, seqnbr, if HasFin(flags) && length == 0 then 1 else length), accepted);
      case FinWait1 =>
        if HasFin(flags) && length == 0 {
          Sequence(Segment(flags, seqnbr, 1), accepted);
          state := Closing;
        }
      case FinWait2 =>
        if HasFin(flags) && length == 0 {
          Sequence(Segment(flags, seqnbr, 1), accepted);
        }
      case _ =>
    }

    /**
     What the states do with a segment when its turn in the sequence comes. Data of an
     established connection goes to the application, whose reaction is `actions`.
     */
    method SequencedRecv(segment: Segment, actions: seq<Action>) returns (ok: bool)
      requires Valid() && (HasFin(segment.flags) ==> remoteFin)
      modifies this`state, this`finished, this`hadRoom, this`finEnd, this`finPos
      modifies tx`writePos, tx`log, tx`stream, tx.buffer.queue, tx.buffer.queue.items, tx.segments, tx.segments.items
      ensures Valid() && (!ok ==> tx.Exhausted())
      ensures Hears(old(Now()), Now(), segment.flags, actions, ok)
      ensures ok ==> Sending() == Sequenced(old(Sending()), segment, actions)
      ensures Replies(old(state), segment.flags) ==> ok == old(tx.Takes(1)) && (!ok ==> Sending() == old(Sending()))
    {
      hide SQ.Consistent, PoolModel.Valid, RxOk, OwnFin, RingBuffer.Valid, RingBuffer.Contents, Queue.Valid,
        Queue.Contents, ActedAll;
      ok := true;
      match state
      case SynRcvd =>
        if HasSyn(segment.flags) {
          tx.Buffered();
          ok := Transmit(SYN, PHANTOM, 0);
          SoundGrows(Status(), old(tx.log), tx.ackPos, old(tx.writePos), tx.log, tx.ackPos, tx.writePos);
        }
      case Established =>
        if HasFin(segment.flags) {
          ok := SendFin(LastAck);
        } else {
          ok := Respond(actions);
        }
      case FinWait2 =>
        if HasFin(segment.flags) {
          finished := true;
        }
      case _ =>
    }

    /** Acknowledges what the remote has, and tells the state if that is everything. */
    method Acknowledge(ackNbr: nat)
      requires Valid() && ackNbr <= tx.writePos
      modifies this`state, this`finished, tx`readPos, tx`ackPos, tx`popped, tx.buffer.queue, tx.segments
      ensures Valid() && old(tx.ackPos) <= tx.ackPos && |tx.Segs()| <= |old(tx.Segs())|
      ensures tx.ackPos > old(tx.ackPos) ==> |tx.Segs()| < |old(tx.Segs())|
      ensures old(finished) ==> finished
      ensures var k := SQ.Acked(old(tx.Segs()), old(tx.ackPos), ackNbr);
        k <= |old(tx.Segs())| && |tx.Segs()| == |old(tx.Segs())| - k
      ensures tx.ackPos == SQ.EndOf(old(tx.Segs()), old(tx.ackPos), SQ.Acked(old(tx.Segs()), old(tx.ackPos), ackNbr))
      ensures Status() == if ackNbr == tx.writePos then Consumed(old(Status())) else old(Status())
    {
      hide PoolModel.Valid, RxOk, OwnFin, Sound, SQ.Consistent;
      AckBounds(tx.Segs(), tx.Contents(), tx.ackPos, tx.writePos, tx.readPos, tx.log, tx.popped, tx.stream, tx.base,
                ackNbr);
      tx.Ack(ackNbr);
      SQ.Ends(tx.Segs(), tx.Contents(), tx.ackPos, tx.writePos, tx.readPos, tx.log, tx.popped, tx.stream, tx.base);
      SoundGrows(Status(), tx.log, old(tx.ackPos), tx.writePos, tx.log, tx.ackPos, tx.writePos);
      if ackNbr >= tx.writePos {
        ConsumedSound(Status(), tx.log, tx.ackPos, tx.writePos);
        match state
        case LastAck => finished := true;
        case Closing => finished := true;
        case FinWait1 => state := FinWait2;
        case _ =>
      }
    }

    lemma TakesRoom()
      requires tx.Valid()
      ensures Now().Room() ==> tx.Takes(1)
    {
      hide SQ.Consistent;
    }

    /** Takes one segment out of the receive queue and passes it to the state. */
    method ReadOne(idx: nat, actions: seq<Action>) returns (ok: bool)
      requires Valid() && idx in segments.items && segments.items[idx].seqnbr == cursor
      modifies this
      modifies tx`writePos, tx`log, tx`stream, tx.buffer.queue, tx.buffer.queue.items, tx.segments, tx.segments.items
      ensures Valid() && tx.Shape() && Leads(old(Now()), Now(), actions == []) && (!ok ==> tx.Exhausted())
      ensures ok ==> Sending() == Sequenced(old(Sending()), old(segments.items)[idx], actions)
      ensures segments.items == old(segments.items) - {idx} && |segments.items| < |old(segments.items)|
      ensures cursor == (old(cursor) + old(segments.items)[idx].length) % UINT32
      ensures finished <==> old(finished) || (old(state) == FinWait2 && HasFin(old(segments.items)[idx].flags))
      ensures ok && old(state) == Established ==>
        state == if HasFin(old(segments.items)[idx].flags) then LastAck
          else if CloseDown in actions then FinWait1 else Established
      ensures ClosingDown(old(state)) || (actions == [] && old(Now()).Room()) ==> ok
    {
      hide SQ.Consistent, PoolModel.Valid, PoolModel.Erase, OwnFin, Sound, RingBuffer.Valid, RingBuffer.Contents;
      hide Queue.Valid, Queue.Contents, Sequenced, SQ.SendQueue.Exhausted, HasSyn, HasFin, Leads, Hears;
      TakesRoom();
      hide SQ.SendQueue.Takes;
      var segment := segments.items[idx];
      ghost var a := Now();
      MinusCount(segments.items, idx);
      segments := segments.Erase(idx);
      cursor := (cursor + segment.length) % UINT32;
      ghost var m := Now();
      ok := SequencedRecv(segment, actions);
      HearsLeads(a, m, Now(), segment.flags, actions, ok);
    }

    /** Reads whatever has come in sequence; the reaction of the application to each segment is in `app`. */
    method Step(app: seq<seq<Action>>) returns (ok: bool, ghost read: Reading)
      requires Valid()
      modifies this
      modifies tx`writePos, tx`log, tx`stream, tx.buffer.queue, tx.buffer.queue.items, tx.segments, tx.segments.items
      ensures Valid() && tx.Shape() && Leads(old(Now()), Now(), app == []) && (!ok ==> tx.Exhausted())
      ensures ClosingDown(old(state)) || (app == [] && old(Now()).Room()) ==> ok
      ensures read.Ok() && read.From() == old(Unread()) && read.End() == Unread()
      ensures ok ==> Sending() == SequencedAll(old(Sending()), read, app) && AtGap(Unread())
    {
      hide Valid, SQ.SendQueue.Shape, SQ.SendQueue.Exhausted, Leads, SequencedAll, Sequenced, IsFront, AtGap;
      hide Actions, HasFin, Reached, Reading.Ok, Reading.From, Reading.End, Reading.Count;
      ok, read := true, Start(Unread());
      SegsBound();
      ReachedStart(Now(), Unread(), Sending(), app);
      var idx, found := Readable();
      var k := 0;
      while found
        invariant Valid() && tx.Shape() && ok && k == read.Count()
        invariant Reached(old(Now()), old(Sending()), read, app, Now(), Sending())
        invariant read.From() == old(Unread()) && read.End() == Unread()
        invariant found ==>
          idx in segments.items && IsFront(segments.items, idx) && segments.items[idx].seqnbr == cursor
        invariant !found ==> AtGap(Unread())
        decreases |segments.items|
      {
        ghost var m, c := Now(), Sending();
        ReachedRoom(old(Now()), old(Sending()), read, app, m, c);
        ok := ReadOne(idx, Actions(app, k));
        ReachedOn(old(Now()), old(Sending()), read, app, m, c, idx, Now(), Sending(), ok);
        read := Then(read, idx);
        if !ok {
          return;
        }
        k := k + 1;
        idx, found := Readable();
      }
      ReachedEnd(old(Now()), old(Sending()), read, app, Now(), Sending());
    }

    /** What it takes for a connection to be finished, whatever the remote did. */
    lemma FinishedMeansClosed()
      requires Valid() && finished
      ensures remoteFin && ClosingDown(state)
      ensures hadRoom <==> exists i :: 0 <= i < |tx.log| && tx.log[i].flags == FIN
      ensures hadRoom <==> exists i :: 0 <= i < |tx.log| && tx.log[i].flags == FIN && EndsBy(tx.log[i], tx.ackPos)
    {
      hide SQ.Consistent, PoolModel.Valid, RxOk;
      if hadRoom {
        var i :| 0 <= i < |tx.log| && tx.log[i].flags == FIN && tx.log[i].seqnbr + tx.log[i].dataLength == finEnd.value;
        assert EndsBy(tx.log[i], tx.ackPos);
      }
    }

    /** The front segment, if it is next in sequence. */
    method Readable() returns (idx: nat, found: bool)
      requires Valid()
      ensures found ==> idx in segments.items && IsFront(segments.items, idx) && segments.items[idx].seqnbr == cursor
      ensures !found ==> AtGap(Unread())
    {
      hide PoolModel.Valid, SQ.Consistent, RxOk, Sound;
      if segments.items == map[] {
        return 0, false;
      }
      Numbered(segments.items, remoteFin);
      idx := FindFront(segments);
      OnlyFront(segments.items, idx);
      found := segments.items[idx].seqnbr == cursor;
    }

    /** on_receive. The remote never acknowledges a number past what was queued. */
    method OnReceive(flags: nat, seqnbr: nat, ackNbr: nat, length: nat, accepted: bool, app: seq<seq<Action>>)
      returns (ok: bool, ghost read: Reading)
      requires Valid() && seqnbr < MAX_SEQNBR && (HasAck(flags) ==> ackNbr <= tx.writePos)
      modifies this
      modifies tx, tx.buffer.queue, tx.buffer.queue.items, tx.segments, tx.segments.items
      ensures Valid() && (!ok ==> tx.Exhausted()) && (ClosingDown(old(state)) ==> ok)
      ensures Outcome(old(Now()), Now(), flags, length, HasAck(flags) && ackNbr == old(tx.writePos), app == [])
      ensures old(tx.ackPos) <= tx.ackPos == (if HasAck(flags) then old(AckedTo(ackNbr)) else old(tx.ackPos))
      ensures read.Ok() && read.End() == Unread()
      ensures read.From() ==
        Table(Arriving(old(state), old(segments), flags, seqnbr, length, accepted).items, old(cursor))
      ensures ok ==> AtGap(Unread()) && Sending() == SequencedAll(old(Taken(flags, ackNbr, length)), read, app)
      ensures ok && accepted && old(state) == Established && old(segments.items) == map[] && seqnbr == old(cursor) ==>
        AtOnce(old(Taken(flags, ackNbr, length)), flags, seqnbr, length, app, Unread(), Sending())
      ensures app == [] && old(Now()).Room() ==> ok
      ensures app == [] && tx.ackPos > old(tx.ackPos) && old(tx.writePos) + 1 < UINT32 ==> ok
    {
      hide Valid, HasFin, HasAck, SQ.SendQueue.Exhausted, SequencedAll, AtGap, Arriving, Taken, Outcome, Leads;
      hide PoolModel.Valid, Sequenced, Actions, Reading.Ok, Reading.End, Reading.From, AtOnce;
      SegsBound();
      TableFine();
      Arrive(flags, seqnbr, ackNbr, length, accepted);
      SegsBound();
      ghost var m := Now();
      ok, read := Step(app);
      OutcomeIs(old(Now()), m, Now(), flags, length, HasAck(flags) && ackNbr == old(tx.writePos), app == []);
      SameAck(m, Now(), app == []);
      if ok && accepted && old(state) == Established && old(segments.items) == map[] && seqnbr == old(cursor) {
        EstablishedStays(old(Status()), flags, length, HasAck(flags) && ackNbr == old(tx.writePos));
        ReadAtOnce(old(segments), flags, seqnbr, length, read, old(Taken(flags, ackNbr, length)), app);
      }
    }

    /** What is queued for sending, and the state, once an acknowledgement has been taken in. */
    ghost function Taken(flags: nat, ackNbr: nat, length: nat): Core
      requires tx.Shape()
      reads this, tx, tx.buffer, tx.buffer.queue, tx.segments, tx.segments.items
    {
      var v := OnArrival(Status(), flags, length, HasAck(flags) && ackNbr == tx.writePos);
      var acked := if HasAck(flags) then SQ.Acked(tx.Segs(), tx.ackPos, ackNbr) else 0;
      Core(v.state, v.finished, tx.log, tx.stream, tx.writePos,
           if HasAck(flags) then AckedTo(ackNbr) else tx.ackPos,
           if acked <= |tx.Segs()| then |tx.Segs()| - acked else 0)
    }

    /** How far acknowledging `n` gets. */
    ghost function AckedTo(n: nat): nat
      requires tx.Shape()
      reads this, tx, tx.buffer, tx.buffer.queue, tx.segments, tx.segments.items
    {
      SQ.EndOf(tx.Segs(), tx.ackPos, SQ.Acked(tx.Segs(), tx.ackPos, n))
    }

    lemma SegsBound()
      requires Valid()
      ensures tx.Shape() && |tx.Segs()| <= SQ.MAX_SEGMENTS
    {
      tx.TakesOrExhausted(0);
      hide *;
    }

    lemma TableFine()
      requires Valid()
      ensures segments.Valid() && segments.capacity == MAX_SEGMENTS
    {
      hide PoolModel.Valid, SQ.SendQueue.Valid, RxOk, Sound;
    }

    lemma AllAcked()
      requires Valid()
      ensures AckedTo(tx.writePos) == tx.writePos
    {
      SQ.AckedAll(tx.Segs(), tx.ackPos, tx.writePos);
      hide SQ.EndOf, SQ.Acked, PoolModel.Valid, RxOk, Sound;
    }

    /** The part of on_receive before the step. */
    method Arrive(flags: nat, seqnbr: nat, ackNbr: nat, length: nat, accepted: bool)
      requires Valid() && seqnbr < MAX_SEQNBR && (HasAck(flags) ==> ackNbr <= tx.writePos)
      modifies this`state, this`finished, this`segments, this`remoteFin
      modifies tx`readPos, tx`ackPos, tx`popped, tx.buffer.queue, tx.segments
      ensures Valid()
      ensures old(tx.ackPos) <= tx.ackPos == (if HasAck(flags) then old(AckedTo(ackNbr)) else old(tx.ackPos))
      ensures |tx.Segs()| <= |old(tx.Segs())| && (tx.ackPos > old(tx.ackPos) ==> |tx.Segs()| < |old(tx.Segs())|)
      ensures segments == Arriving(old(state), old(segments), flags, seqnbr, length, accepted)
      ensures Sending() == old(Taken(flags, ackNbr, length))
      ensures Status() == OnArrival(old(Status()), flags, length, HasAck(flags) && ackNbr == tx.writePos)
    {
      hide SQ.Consistent, PoolModel.Valid, Sound, RxOk, RingBuffer.Valid, RingBuffer.Contents, Queue.Valid;
      hide Queue.Contents, HasFin, HasAck, SQ.EndOf, SQ.Acked, PoolModel.EmplaceAnywhere, Arriving;
      FinSeen(Status(), tx.log, tx.ackPos, tx.writePos, segments.items);
      remoteFin := remoteFin || HasFin(flags);
      EarlyRecv(flags, seqnbr, length, accepted);
      if HasAck(flags) {
        Acknowledge(ackNbr);
      }
    }
  }

  /** What a SYN leads to: a connection that has answered it with its own. */
  method Answer(seqnbr: nat) returns (c: Connection)
    requires seqnbr < MAX_SEQNBR
    ensures fresh(c) && fresh(c.tx) && fresh(c.tx.buffer) && fresh(c.tx.buffer.queue) && fresh(c.tx.buffer.queue.items)
    ensures fresh(c.tx.segments) && fresh(c.tx.segments.items)
    ensures c.Valid() && c.state == SynRcvd && !c.remoteFin && c.Unread() == Table(map[], (seqnbr + 1) % UINT32)
    ensures c.tx.log == [SQ.SendSegment(SYN, INITIAL_SEQNBR, 1, 0)]
    ensures c.tx.ackPos == INITIAL_SEQNBR && c.tx.writePos == INITIAL_SEQNBR + 1 && |c.tx.Segs()| == 1
  {
    hide SQ.Consistent, PoolModel.Valid, RxOk, AtGap, Reading.Ok, SQ.Tiles;
    c := new Connection(SYN, seqnbr);
    var ok, read := c.Step([]);
    OnlyOneRead(read, 0);
  }

  /** A new connection, established, whose application has filled the send buffer. */
  method FullBuffer(seqnbr: nat) returns (c: Connection)
    requires seqnbr < MAX_SEQNBR
    ensures fresh(c) && fresh(c.tx) && fresh(c.tx.buffer.queue) && fresh(c.tx.buffer.queue.items)
    ensures fresh(c.tx.segments) && fresh(c.tx.segments.items)
    ensures c.Valid() && c.state == Established && c.Now().Room()
    ensures Unacked(c.tx.writePos, c.tx.ackPos) == SQ.WINDOW
  {
    hide SQ.Consistent, PoolModel.Valid, SQ.EndOf, SQ.Acked, RxOk, SequencedAll, AtGap, Acted;
    hide Connection.Taken, Arriving;
    c := Answer(seqnbr);
    c.AllAcked();
    var ok, read := c.OnReceive(16, seqnbr, c.tx.writePos, 0, false, []);
    ok := c.Send(seq(SQ.WINDOW, _ => 0));
  }

  /** A run that finishes with a FIN nobody ever saw: the buffer was full when the connection was closed. */
  method FinishedWithoutFin(seqnbr: nat) returns (c: Connection)
    requires seqnbr < MAX_SEQNBR
    ensures c.Valid() && c.finished && NoFin(c.tx.log, 0)
  {
    hide SQ.Consistent, PoolModel.Valid, RxOk, SequencedAll, AtGap, Acted, Connection.Taken;
    hide Arriving;
    c := FullBuffer(seqnbr);
    var ok := c.Close();
    ghost var read;
    ok, read := c.OnReceive(FIN + 16, seqnbr, c.tx.writePos, 0, false, []);
  }

  lemma Numbered(items: Segments, remoteFin: bool)
    requires RxOk(items, remoteFin) && items != map[]
    ensures HasNumbered(items)
  {
    var i :| i in items;
  }

  lemma AckBounds(segs: seq<SQ.SendSegment>, contents: seq<byte>, ackPos: nat, writePos: nat, readPos: nat,
                  log: seq<SQ.SendSegment>, popped: nat, stream: seq<byte>, base: nat, n: nat)
    requires SQ.Consistent(segs, contents, ackPos, writePos, readPos, log, popped, stream, base) && n <= writePos
    ensures var end := SQ.EndOf(segs, ackPos, SQ.Acked(segs, ackPos, n));
      ackPos <= end && (n == writePos ==> end == writePos)
    ensures |segs| == |log| - popped
  {
    SQ.AckedAll(segs, ackPos, writePos);
    SQ.EndBound(segs, ackPos, SQ.Acked(segs, ackPos, n));
  }
}
