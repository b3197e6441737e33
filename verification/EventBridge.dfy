/** Events published in one process reach the subscribers of all others through a notification channel. */
module EventBridge {
  import opened Collections

  type Origin = string
  type Data = map<string, string>

  datatype Event = Event(name: string, data: Data)

  /** A notification as it travels: the process that sent it, and the event. */
  datatype Wire = Wire(origin: Origin, name: string, data: Data)

  const OUTBOUND_LIMIT: nat := 1024
  const NOTIFY_LIMIT: nat := 7000

  /** The length of a notification once serialised. */
  type Size = Wire -> nat

  /** Data that would make the notification too long is left out. */
  function Encode(me: Origin, e: Event, size: Size): Wire {
    var full := Wire(me, e.name, e.data);
    if size(full) <= NOTIFY_LIMIT then full else Wire(me, e.name, map[])
  }

  function Decode(w: Wire): Event {
    Event(w.name, w.data)
  }

  /** An event arrives whole exactly if it fits into 7000 bytes or has no data; its name always arrives. */
  lemma ArrivesWholeIff(me: Origin, e: Event, size: Size)
    ensures Decode(Encode(me, e, size)) == e <==> size(Wire(me, e.name, e.data)) <= 7000 || e.data == map[]
    ensures Decode(Encode(me, e, size)).name == e.name && Encode(me, e, size).origin == me
    ensures Decode(Encode(me, e, size)).data in {e.data, map[]}
  {
  }

  function Encoded(me: Origin, es: seq<Event>, size: Size): seq<Wire> {
    if es == [] then [] else Encoded(me, es[..|es| - 1], size) + [Encode(me, es[|es| - 1], size)]
  }

  // ------------------------------------------------------------------ sending at least once

  /** `sent` is `wanted` in order, each repeated once or more. */
  ghost predicate Stutters(sent: seq<Wire>, wanted: seq<Wire>)
    decreases |sent|
  {
    if wanted == [] then sent == []
    else
      && sent != [] && sent[|sent| - 1] == wanted[|wanted| - 1]
      && var before := sent[..|sent| - 1];
      Stutters(before, wanted[..|wanted| - 1]) || Stutters(before, wanted)
  }

  lemma StutterOn(sent: seq<Wire>, wanted: seq<Wire>, w: Wire)
    requires Stutters(sent, wanted)
    ensures Stutters(sent + [w], wanted + [w])
  {
    assert (sent + [w])[..|sent|] == sent && (wanted + [w])[..|wanted|] == wanted;
  }

  lemma StutterAgain(sent: seq<Wire>, wanted: seq<Wire>)
    requires Stutters(sent, wanted) && wanted != []
    ensures Stutters(sent + [wanted[|wanted| - 1]], wanted)
  {
    assert (sent + [wanted[|wanted| - 1]])[..|sent|] == sent;
  }

  /** Nothing is lost and nothing is made up: what stutters has the same members. */
  lemma {:induction false} StutterMembers(sent: seq<Wire>, wanted: seq<Wire>)
    requires Stutters(sent, wanted)
    ensures forall w :: w in sent <==> w in wanted
    decreases |sent|
  {
    if wanted != [] {
      var before, last := sent[..|sent| - 1], sent[|sent| - 1];
      var earlier := wanted[..|wanted| - 1];
      assert sent == before + [last] && wanted == earlier + [last];
      if Stutters(before, earlier) {
        StutterMembers(before, earlier);
      } else {
        StutterMembers(before, wanted);
      }
    }
  }

  /** What the bridge task holds: the queue, the event taken from it and not yet settled, and what it has sent. */
  datatype Sender = Sender(outbound: seq<Event>, pending: Option<Event>, sent: seq<Wire>)

  datatype Outcome = Acknowledged | SentUnheard | NotSent

  function Take(s: Sender): Sender
    requires s.pending.None? && s.outbound != []
  {
    Sender(s.outbound[1..], Some(s.outbound[0]), s.sent)
  }

  /** Without an acknowledgement the event stays pending, whether or not it went out. */
  function Settle(s: Sender, me: Origin, size: Size, outcome: Outcome): Sender
    requires s.pending.Some?
  {
    var wire := Encode(me, s.pending.value, size);
    match outcome
    case Acknowledged => Sender(s.outbound, None, s.sent + [wire])
    case SentUnheard => s.(sent := s.sent + [wire])
    case NotSent => s
  }

  /** Of the accepted events, those that have left the queue. */
  function Taken(accepted: seq<Event>, s: Sender): seq<Event>
    requires |s.outbound| <= |accepted|
  {
    accepted[..|accepted| - |s.outbound|]
  }

  /**
   * The queue holds the latest accepted events; what was sent is the rest in order, each once or more,
   * except that the last of them, if still pending, may not have been sent at all.
   */
  ghost predicate Relays(me: Origin, size: Size, accepted: seq<Event>, s: Sender) {
    && |s.outbound| <= |accepted|
    && var taken := Taken(accepted, s);
    && accepted == taken + s.outbound
    && match s.pending
       case None => Stutters(s.sent, Encoded(me, taken, size))
       case Some(e) =>
         && taken != [] && taken[|taken| - 1] == e
         && (Stutters(s.sent, Encoded(me, taken, size))
             || Stutters(s.sent, Encoded(me, taken[..|taken| - 1], size)))
  }

  lemma TakeRelays(me: Origin, size: Size, accepted: seq<Event>, s: Sender)
    requires Relays(me, size, accepted, s) && s.pending.None? && s.outbound != []
    ensures Relays(me, size, accepted, Take(s))
  {
    hide Stutters, Encoded;
    var taken, after := Taken(accepted, s), Taken(accepted, Take(s));
    assert after == taken + [s.outbound[0]];
    assert after[..|after| - 1] == taken;
  }

  lemma SettleRelays(me: Origin, size: Size, accepted: seq<Event>, s: Sender, outcome: Outcome)
    requires Relays(me, size, accepted, s) && s.pending.Some?
    ensures Relays(me, size, accepted, Settle(s, me, size, outcome))
  {
    hide Stutters, Encode;
    var taken := Taken(accepted, s);
    var wire, all, earlier :=
      Encode(me, s.pending.value, size), Encoded(me, taken, size), Encoded(me, taken[..|taken| - 1], size);
    assert all == earlier + [wire];
    if Stutters(s.sent, all) {
      StutterAgain(s.sent, all);
    } else {
      StutterOn(s.sent, earlier, wire);
    }
  }

  lemma AcceptRelays(me: Origin, size: Size, accepted: seq<Event>, s: Sender, e: Event)
    requires Relays(me, size, accepted, s)
    ensures Relays(me, size, accepted + [e], s.(outbound := s.outbound + [e]))
  {
    hide Stutters, Encoded;
    assert Taken(accepted + [e], s.(outbound := s.outbound + [e])) == Taken(accepted, s);
  }

  lemma SettleKeepsQueue(s: Sender, me: Origin, size: Size, outcome: Outcome)
    requires s.pending.Some?
    ensures Settle(s, me, size, outcome).outbound == s.outbound
  {
    hide Encode;
  }

  /** A run of attempts, each for the pending event or else the next in the queue, while there is one. */
  function Session(s: Sender, me: Origin, size: Size, outcomes: seq<Outcome>): Sender
    decreases |outcomes|
  {
    if outcomes == [] || (s.pending.None? && s.outbound == []) then s
    else Session(Settle(if s.pending.None? then Take(s) else s, me, size, outcomes[0]), me, size, outcomes[1..])
  }

  /** How many events are still to be acknowledged. */
  function Backlog(s: Sender): nat {
    |s.outbound| + if s.pending.Some? then 1 else 0
  }

  function Acknowledgements(outcomes: seq<Outcome>): nat {
    if outcomes == [] then 0
    else (if outcomes[0] == Acknowledged then 1 else 0) + Acknowledgements(outcomes[1..])
  }

  /** Each acknowledgement settles one event, no failure loses one, and what was sent stays sent. */
  lemma {:induction false} SessionSettles(s: Sender, me: Origin, size: Size, outcomes: seq<Outcome>)
    ensures var acks := Acknowledgements(outcomes);
      Backlog(Session(s, me, size, outcomes)) == if acks <= Backlog(s) then Backlog(s) - acks else 0
    ensures s.sent <= Session(s, me, size, outcomes).sent
    decreases |outcomes|
  {
    hide Encode;
    if outcomes != [] && !(s.pending.None? && s.outbound == []) {
      var next := Settle(if s.pending.None? then Take(s) else s, me, size, outcomes[0]);
      SessionSettles(next, me, size, outcomes[1..]);
    }
  }

  /** Everything sent encodes an accepted event, and everything taken but the pending event has been sent. */
  lemma {:induction false} EncodedMembers(me: Origin, es: seq<Event>, size: Size)
    ensures forall w :: w in Encoded(me, es, size) <==> exists e | e in es :: Encode(me, e, size) == w
  {
    hide Encode;
    if es != [] {
      var front, last := es[..|es| - 1], es[|es| - 1];
      EncodedMembers(me, front, size);
      assert es == front + [last];
      assert forall e :: e in es <==> e in front || e == last;
    }
  }

  lemma SentWasAccepted(me: Origin, size: Size, accepted: seq<Event>, s: Sender, w: Wire)
    requires Relays(me, size, accepted, s) && w in s.sent
    ensures exists e | e in accepted :: Encode(me, e, size) == w
  {
    hide Stutters, Encode, Encoded;
    var taken := Taken(accepted, s);
    var sent := if Stutters(s.sent, Encoded(me, taken, size)) then taken else taken[..|taken| - 1];
    StutterMembers(s.sent, Encoded(me, sent, size));
    EncodedMembers(me, sent, size);
    var e :| e in sent && Encode(me, e, size) == w;
    assert e in accepted;
  }

  lemma SettledWasSent(me: Origin, size: Size, accepted: seq<Event>, s: Sender, e: Event)
    requires Relays(me, size, accepted, s) && s.pending.None? && e in Taken(accepted, s)
    ensures Encode(me, e, size) in s.sent
  {
    hide Stutters, Encode, Encoded;
    var taken := Taken(accepted, s);
    StutterMembers(s.sent, Encoded(me, taken, size));
    EncodedMembers(me, taken, size);
  }

  // ------------------------------------------------------------------ one process

  type SubId = string
  type Queues = map<SubId, seq<Event>>

  /** A bound of zero means no bound. */
  predicate IsFull(q: seq<Event>, limit: nat) {
    limit > 0 && |q| >= limit
  }

  /** The queues after an event is put in each one of the snapshot that is not full. */
  function Delivered(queues: Queues, snapshot: set<SubId>, e: Event, limit: nat): Queues {
    map id | id in queues ::
      if id in snapshot && !IsFull(queues[id], limit) then queues[id] + [e] else queues[id]
  }

  /** Where a call of publish runs: on the event loop, or on another thread with the loop open or closed. */
  datatype Place = OnLoop | OtherThread(closed: bool)

  /** What another thread leaves for the loop to do; an outbound event is bound to the queue of its time. */
  datatype Callback = DeliverTo(snapshot: set<SubId>, event: Event) | PutOut(generation: nat, event: Event)

  /** A queue gets the event exactly if it is in the snapshot and has room; a limit of zero is none. */
  lemma DeliveredIff(queues: Queues, snapshot: set<SubId>, e: Event, limit: nat)
    ensures Delivered(queues, snapshot, e, limit).Keys == queues.Keys
    ensures forall id | id in queues ::
      Delivered(queues, snapshot, e, limit)[id] ==
        if id in snapshot && (limit == 0 || |queues[id]| < limit) then queues[id] + [e] else queues[id]
  {
  }

  lemma DeliveredNone(queues: Queues, e: Event, limit: nat)
    ensures Delivered(queues, {}, e, limit) == queues
  {
  }

  lemma DeliveredMore(queues: Queues, done: set<SubId>, id: SubId, e: Event, limit: nat)
    requires id !in done
    ensures var now := Delivered(queues, done, e, limit);
      Delivered(queues, done + {id}, e, limit) ==
        if id in now && !IsFull(now[id], limit) then now[id := now[id] + [e]] else now
  {
    hide IsFull;
  }

  class EventBus {
    const origin: Origin
    const size: Size
    const queueLimit: nat
    var queues: Queues
    var bridge: Option<Sender>
    /** How often the bridge was started, and what waits for the loop. */
    var generation: nat
    var scheduled: seq<Callback>
    /** The events put in the outbound queue since the bridge was started. */
    ghost var accepted: seq<Event>

    ghost predicate Valid()
      reads this
    {
      bridge.Some? ==> |bridge.value.outbound| <= OUTBOUND_LIMIT && Relays(origin, size, accepted, bridge.value)
    }

    constructor (origin: Origin, size: Size, queueLimit: nat)
      ensures Valid() && this.origin == origin && this.size == size && this.queueLimit == queueLimit
      ensures queues == map[] && bridge == None && scheduled == []
    {
      this.origin, this.size, this.queueLimit := origin, size, queueLimit;
      queues, bridge, accepted := map[], None, [];
      generation, scheduled := 0, [];
    }

    method Subscribe(id: SubId)
      requires Valid() && id !in queues
      modifies this`queues
      ensures Valid() && queues == old(queues)[id := []]
    {
      queues := queues[id := []];
    }

    method Unsubscribe(id: SubId)
      requires Valid()
      modifies this`queues
      ensures Valid() && queues == old(queues) - {id}
    {
      queues := queues - {id};
    }

    method Deliver(snapshot: set<SubId>, e: Event)
      requires Valid()
      modifies this`queues
      ensures Valid() && queues == Delivered(old(queues), snapshot, e, queueLimit)
      ensures queues.Keys == old(queues).Keys
      ensures forall id | id in queues ::
        queues[id] == if id in snapshot && (queueLimit == 0 || |old(queues)[id]| < queueLimit)
                      then old(queues)[id] + [e] else old(queues)[id]
    {
      hide Relays, IsFull, Delivered;
      DeliveredIff(queues, snapshot, e, queueLimit);
      DeliveredNone(queues, e, queueLimit);
      var rest := snapshot;
      assert snapshot - rest == {};
      while rest != {}
        invariant rest <= snapshot && Valid()
        invariant queues == Delivered(old(queues), snapshot - rest, e, queueLimit)
        decreases |rest|
      {
        var id :| id in rest;
        DeliveredMore(old(queues), snapshot - rest, id, e, queueLimit);
        assert snapshot - (rest - {id}) == (snapshot - rest) + {id};
        rest := rest - {id};
        if id in queues && !IsFull(queues[id], queueLimit) {
          queues := queues[id := queues[id] + [e]];
        }
      }
      assert snapshot - rest == snapshot;
    }

    method PublishCrossProcess(e: Event) returns (taken: bool)
      requires Valid()
      modifies this`bridge, this`accepted
      ensures Valid()
      ensures taken <==> old(bridge).Some? && |old(bridge).value.outbound| < 1024
      ensures taken ==> accepted == old(accepted) + [e]
      ensures taken ==> bridge == Some(old(bridge).value.(outbound := old(bridge).value.outbound + [e]))
      ensures !taken ==> accepted == old(accepted) && bridge == old(bridge)
    {
      taken := bridge.Some? && |bridge.value.outbound| < OUTBOUND_LIMIT;
      if taken {
        AcceptRelays(origin, size, accepted, bridge.value, e);
        bridge := Some(bridge.value.(outbound := bridge.value.outbound + [e]));
        accepted := accepted + [e];
      }
    }

    /**
     * On the loop an event goes to all subscribers here at once, and out to the other processes. From
     * another thread both are left to the loop; when the loop is closed, the local part is given up
     * silently, and the outbound part raises.
     */
    method Publish(e: Event, place: Place) returns (raised: bool)
      requires Valid()
      modifies this
      ensures Valid() && generation == old(generation)
      ensures raised <==> place == OtherThread(true) && old(bridge).Some?
      ensures place.OnLoop? ==>
        && scheduled == old(scheduled) && queues == Delivered(old(queues), old(queues).Keys, e, queueLimit)
        && if old(bridge).Some? && |old(bridge).value.outbound| < OUTBOUND_LIMIT then
             && accepted == old(accepted) + [e]
             && bridge == Some(old(bridge).value.(outbound := old(bridge).value.outbound + [e]))
           else accepted == old(accepted) && bridge == old(bridge)
      ensures place.OtherThread? ==> queues == old(queues) && bridge == old(bridge) && accepted == old(accepted)
      ensures place == OtherThread(true) ==> scheduled == old(scheduled)
      ensures place == OtherThread(false) ==>
        scheduled == old(scheduled)
          + (if old(queues) != map[] then [DeliverTo(old(queues).Keys, e)] else [])
          + (if old(bridge).Some? then [PutOut(generation, e)] else [])
    {
      hide Relays, IsFull;
      raised := false;
      if queues != map[] {
        if place.OnLoop? {
          Deliver(queues.Keys, e);
        } else if !place.closed {
          scheduled := scheduled + [DeliverTo(queues.Keys, e)];
        }
      }
      if place.OnLoop? {
        var taken := PublishCrossProcess(e);
      } else if bridge.Some? {
        if place.closed { return true; }
        scheduled := scheduled + [PutOut(generation, e)];
      }
    }

    /** The loop runs the next callback: what was left to it by another thread happens now. */
    method RunScheduled()
      requires Valid() && scheduled != []
      modifies this
      ensures Valid() && scheduled == old(scheduled)[1..] && generation == old(generation)
      ensures match old(scheduled)[0]
        case DeliverTo(snapshot, e) =>
          && queues == Delivered(old(queues), snapshot, e, queueLimit)
          && bridge == old(bridge) && accepted == old(accepted)
        case PutOut(g, e) =>
          && queues == old(queues)
          && if g == generation && old(bridge).Some? && |old(bridge).value.outbound| < OUTBOUND_LIMIT then
               && accepted == old(accepted) + [e]
               && bridge == Some(old(bridge).value.(outbound := old(bridge).value.outbound + [e]))
             else accepted == old(accepted) && bridge == old(bridge)
    {
      hide Relays, IsFull, Delivered;
      var next := scheduled[0];
      scheduled := scheduled[1..];
      match next {
        case DeliverTo(snapshot, e) => Deliver(snapshot, e);
        case PutOut(g, e) =>
          if g == generation {
            var taken := PublishCrossProcess(e);
          }
      }
    }

    /** A notification goes to the subscribers here unless it came from here; it is never sent on. */
    method OnNotify(w: Wire)
      requires Valid()
      modifies this`queues
      ensures Valid()
      ensures queues == if w.origin == origin then old(queues)
                        else Delivered(old(queues), old(queues).Keys, Decode(w), queueLimit)
    {
      if w.origin == origin { return; }
      Deliver(queues.Keys, Decode(w));
    }

    method StartBridge()
      requires Valid()
      modifies this`bridge, this`accepted, this`generation
      ensures Valid() && bridge == if old(bridge).Some? then old(bridge) else Some(Sender([], None, []))
      ensures accepted == if old(bridge).Some? then old(accepted) else []
      ensures generation == old(generation) + if old(bridge).Some? then 0 else 1
    {
      if bridge.Some? { return; }
      bridge, accepted := Some(Sender([], None, [])), [];
      generation := generation + 1;
    }

    method StopBridge()
      requires Valid()
      modifies this`bridge
      ensures Valid() && bridge == None
    {
      bridge := None;
    }

    /**
     * The retry loop, as far as the outcomes of its attempts are known. It stops early when there is
     * nothing to send. The pending event survives every failure.
     */
    method RunBridge(outcomes: seq<Outcome>)
      requires Valid() && bridge.Some?
      modifies this`bridge
      ensures Valid() && bridge == Some(Session(old(bridge).value, origin, size, outcomes))
    {
      hide Relays, Encode, Taken, Settle;
      var i := 0;
      while i < |outcomes|
        invariant 0 <= i <= |outcomes| && Valid() && bridge.Some?
        invariant
          Session(old(bridge).value, origin, size, outcomes) == Session(bridge.value, origin, size, outcomes[i..])
      {
        if bridge.value.pending.None? {
          if bridge.value.outbound == [] { return; }
          TakeRelays(origin, size, accepted, bridge.value);
          bridge := Some(Take(bridge.value));
        }
        SettleRelays(origin, size, accepted, bridge.value, outcomes[i]);
        SettleKeepsQueue(bridge.value, origin, size, outcomes[i]);
        bridge := Some(Settle(bridge.value, origin, size, outcomes[i]));
        assert outcomes[i..][1..] == outcomes[i + 1..];
        i := i + 1;
      }
    }
  }

  // ------------------------------------------------------------------ all processes

  /** `since` is where in the log the current connection started to listen, `cursor` how far it has come. */
  datatype Process = Process(
    accepted: seq<Event>,
    sender: Sender,
    connected: bool,
    since: nat,
    cursor: nat,
    heard: seq<Event>,
    delivered: seq<(Origin, Event)>)

  /** All notifications of the channel in the order they were committed. */
  datatype State = State(log: seq<Wire>, processes: map<Origin, Process>)

  datatype Action =
    | Publish(event: Event)
    | TakeNext
    | Notify(outcome: Outcome)
    | Connect
    | Disconnect
    | Receive

  ghost predicate Acts(size: Size, me: Origin, p: Process, log: seq<Wire>, a: Action, q: Process, log': seq<Wire>) {
    match a
    case Publish(e) =>
      && log' == log
      && q == if |p.sender.outbound| < OUTBOUND_LIMIT
              then p.(accepted := p.accepted + [e], sender := p.sender.(outbound := p.sender.outbound + [e]))
              else p
    case TakeNext =>
      && p.connected && p.sender.pending.None? && p.sender.outbound != []
      && log' == log && q == p.(sender := Take(p.sender))
    case Notify(outcome) =>
      && p.connected && p.sender.pending.Some?
      && log' == (if outcome == NotSent then log else log + [Encode(me, p.sender.pending.value, size)])
      && q == p.(sender := Settle(p.sender, me, size, outcome), connected := outcome == Acknowledged)
    case Connect =>
      !p.connected && log' == log && q == p.(connected := true, since := |log|, cursor := |log|, heard := [])
    case Disconnect =>
      p.connected && log' == log && q == p.(connected := false)
    case Receive =>
      && p.connected && p.cursor < |log| && log' == log
      && var w := log[p.cursor];
      q == if w.origin == me then p.(cursor := p.cursor + 1)
           else p.(cursor := p.cursor + 1, heard := p.heard + [Decode(w)],
             delivered := p.delivered + [(w.origin, Decode(w))])
  }

  ghost predicate Next(size: Size, s: State, t: State, me: Origin, a: Action) {
    && me in s.processes && me in t.processes && t.processes == s.processes[me := t.processes[me]]
    && Acts(size, me, s.processes[me], s.log, a, t.processes[me], t.log)
  }

  ghost predicate Init(s: State) {
    && s.log == []
    && forall me | me in s.processes ::
         s.processes[me] == Process([], Sender([], None, []), false, 0, 0, [], [])
  }

  datatype Run = Run(states: seq<State>, who: seq<Origin>, actions: seq<Action>)

  ghost predicate IsRun(size: Size, r: Run) {
    && |r.states| == |r.who| + 1 == |r.actions| + 1 && Init(r.states[0])
    && forall i | 0 <= i < |r.actions| :: Next(size, r.states[i], r.states[i + 1], r.who[i], r.actions[i])
  }

  /** The notifications one process sent, in order. */
  function SentBy(log: seq<Wire>, me: Origin): seq<Wire> {
    if log == [] then []
    else SentBy(log[..|log| - 1], me) + if log[|log| - 1].origin == me then [log[|log| - 1]] else []
  }

  /** The events of the notifications that others sent. */
  function FromOthers(log: seq<Wire>, me: Origin): seq<Event> {
    if log == [] then []
    else FromOthers(log[..|log| - 1], me) + if log[|log| - 1].origin != me then [Decode(log[|log| - 1])] else []
  }

  ghost predicate ProcessFits(size: Size, log: seq<Wire>, me: Origin, p: Process) {
    && Relays(me, size, p.accepted, p.sender)
    && SentBy(log, me) == p.sender.sent
    && p.since <= p.cursor <= |log|
    && (p.connected ==> p.heard == FromOthers(log[p.since..p.cursor], me))
    && (forall d | d in p.delivered :: d.0 != me && exists w | w in log :: w.origin == d.0 && Decode(w) == d.1)
  }

  ghost predicate Inv(size: Size, s: State) {
    && (forall me | me in s.processes :: ProcessFits(size, s.log, me, s.processes[me]))
    && (forall w | w in s.log :: w.origin in s.processes)
  }

  lemma SentByMore(log: seq<Wire>, w: Wire, me: Origin)
    ensures SentBy(log + [w], me) == SentBy(log, me) + if w.origin == me then [w] else []
  {
    assert (log + [w])[..|log|] == log;
  }

  lemma FromOthersMore(log: seq<Wire>, since: nat, cursor: nat, me: Origin)
    requires since <= cursor < |log|
    ensures FromOthers(log[since..cursor + 1], me) ==
      FromOthers(log[since..cursor], me) + if log[cursor].origin != me then [Decode(log[cursor])] else []
  {
    var part := log[since..cursor + 1];
    assert part[..|part| - 1] == log[since..cursor];
  }

  /** For a process that does not act, a longer log with no notification of its own changes nothing. */
  lemma BystanderFits(size: Size, log: seq<Wire>, more: seq<Wire>, me: Origin, p: Process)
    requires ProcessFits(size, log, me, p) && |more| <= 1 && forall w | w in more :: w.origin != me
    ensures ProcessFits(size, log + more, me, p)
  {
    hide Relays, FromOthers, SentBy, Decode;
    if more == [] {
      assert log + more == log;
    } else {
      assert more == [more[0]] && more[0] in more;
      SentByMore(log, more[0], me);
      assert (log + more)[p.since..p.cursor] == log[p.since..p.cursor];
      forall d | d in p.delivered
        ensures d.0 != me && exists w | w in log + more :: w.origin == d.0 && Decode(w) == d.1
      {
        var w :| w in log && w.origin == d.0 && Decode(w) == d.1;
        assert w in log + more;
      }
    }
  }

  lemma NotifierFits(size: Size, log: seq<Wire>, me: Origin, p: Process, outcome: Outcome, log': seq<Wire>, q: Process)
    requires ProcessFits(size, log, me, p) && Acts(size, me, p, log, Notify(outcome), q, log')
    ensures ProcessFits(size, log', me, q)
  {
    hide Relays, FromOthers, SentBy, Decode;
    SettleRelays(me, size, p.accepted, p.sender, outcome);
    var wire := Encode(me, p.sender.pending.value, size);
    SentByMore(log, wire, me);
    assert log'[p.since..p.cursor] == log[p.since..p.cursor];
    forall d | d in p.delivered
      ensures d.0 != me && exists w | w in log' :: w.origin == d.0 && Decode(w) == d.1
    {
      var w :| w in log && w.origin == d.0 && Decode(w) == d.1;
      assert w in log';
    }
  }

  lemma ReceiverFits(size: Size, log: seq<Wire>, me: Origin, p: Process, q: Process)
    requires ProcessFits(size, log, me, p) && Acts(size, me, p, log, Receive, q, log)
    ensures ProcessFits(size, log, me, q)
  {
    hide Relays, FromOthers, SentBy, Decode;
    FromOthersMore(log, p.since, p.cursor, me);
    var w := log[p.cursor];
    assert w in log;
    forall d | d in q.delivered
      ensures d.0 != me && exists w | w in log :: w.origin == d.0 && Decode(w) == d.1
    {
      if d !in p.delivered {
        assert d == (w.origin, Decode(w));
      }
    }
  }

  lemma ActorFits(size: Size, log: seq<Wire>, me: Origin, p: Process, a: Action, log': seq<Wire>, q: Process)
    requires ProcessFits(size, log, me, p) && Acts(size, me, p, log, a, q, log')
    ensures ProcessFits(size, log', me, q)
  {
    hide Relays, SentBy, Decode, Encode, Settle;
    match a {
      case Publish(e) => AcceptRelays(me, size, p.accepted, p.sender, e);
      case TakeNext => TakeRelays(me, size, p.accepted, p.sender);
      case Notify(outcome) => NotifierFits(size, log, me, p, outcome, log', q);
      case Receive => ReceiverFits(size, log, me, p, q);
      case Connect =>
      case Disconnect =>
    }
  }

  /** Only the acting process appends to the log, and only under its own name. */
  lemma OnlyOwnNotifications(size: Size, s: State, t: State, me: Origin, a: Action)
    requires Next(size, s, t, me, a)
    ensures s.log <= t.log && |t.log| <= |s.log| + 1
    ensures forall w | w in t.log[|s.log|..] :: w.origin == me
  {
  }

  lemma NextKeepsInv(size: Size, s: State, t: State, me: Origin, a: Action)
    requires Inv(size, s) && Next(size, s, t, me, a)
    ensures Inv(size, t)
  {
    hide ProcessFits, Acts;
    OnlyOwnNotifications(size, s, t, me, a);
    var more := t.log[|s.log|..];
    assert t.log == s.log + more;
    forall p | p in t.processes ensures ProcessFits(size, t.log, p, t.processes[p]) {
      if p == me {
        ActorFits(size, s.log, me, s.processes[me], a, t.log, t.processes[me]);
      } else {
        BystanderFits(size, s.log, more, p, s.processes[p]);
      }
    }
  }

  lemma {:induction false} RunInv(size: Size, r: Run, i: nat)
    requires IsRun(size, r) && i < |r.states|
    ensures Inv(size, r.states[i])
  {
    hide Next;
    if i > 0 {
      hide Inv, Init;
      RunInv(size, r, i - 1);
      NextKeepsInv(size, r.states[i - 1], r.states[i], r.who[i - 1], r.actions[i - 1]);
    } else {
      InitFits(size, r.states[0]);
    }
  }

  lemma InitFits(size: Size, s: State)
    requires Init(s)
    ensures Inv(size, s)
  {
    forall me | me in s.processes ensures ProcessFits(size, s.log, me, s.processes[me]) {
      assert Taken([], Sender([], None, [])) == [];
    }
  }

  // ------------------------------------------------------------------ what holds over every run

  /**
   * The notifications a process has sent are its accepted events in order, each once or more: all that
   * have left its queue, save perhaps the single one that is pending.
   */
  lemma SentInOrder(size: Size, r: Run, i: nat, me: Origin)
    requires IsRun(size, r) && i < |r.states| && me in r.states[i].processes
    ensures var p := r.states[i].processes[me];
      var sent := SentBy(r.states[i].log, me);
      && |p.sender.outbound| <= |p.accepted|
      && var taken := Taken(p.accepted, p.sender);
      && p.accepted == taken + p.sender.outbound
      && (p.sender.pending.None? ==> Stutters(sent, Encoded(me, taken, size)))
      && (p.sender.pending.Some? ==>
            && taken != [] && taken[|taken| - 1] == p.sender.pending.value
            && (Stutters(sent, Encoded(me, taken, size))
                || Stutters(sent, Encoded(me, taken[..|taken| - 1], size))))
  {
    hide Stutters, Encoded, SentBy, FromOthers, IsRun;
    RunInv(size, r, i);
    assert ProcessFits(size, r.states[i].log, me, r.states[i].processes[me]);
  }

  /** Every notification was sent by the process whose name it bears, for an event that process accepted. */
  lemma OnlyOriginNotifies(size: Size, r: Run, i: nat, w: Wire)
    requires IsRun(size, r) && i < |r.states| && w in r.states[i].log
    ensures var s := r.states[i];
      && w.origin in s.processes && exists e | e in s.processes[w.origin].accepted :: Encode(w.origin, e, size) == w
  {
    hide Relays, FromOthers, SentBy, IsRun, Encode;
    RunInv(size, r, i);
    var s := r.states[i];
    var p := s.processes[w.origin];
    assert ProcessFits(size, s.log, w.origin, p);
    SentByMember(s.log, w);
    SentWasAccepted(w.origin, size, p.accepted, p.sender, w);
  }

  lemma {:induction false} SentByMember(log: seq<Wire>, w: Wire)
    requires w in log
    ensures w in SentBy(log, w.origin)
  {
    var front, last := log[..|log| - 1], log[|log| - 1];
    assert log == front + [last];
    if w in front {
      SentByMember(front, w);
    }
  }

  /** What is delivered to a process comes from another one, which accepted it; nothing comes back to its origin. */
  lemma DeliveredFromOthers(size: Size, r: Run, i: nat, me: Origin, d: (Origin, Event))
    requires IsRun(size, r) && i < |r.states| && me in r.states[i].processes
    requires d in r.states[i].processes[me].delivered
    ensures var s := r.states[i];
      && d.0 != me && d.0 in s.processes
      && exists e | e in s.processes[d.0].accepted :: Decode(Encode(d.0, e, size)) == d.1
  {
    hide Relays, FromOthers, SentBy, IsRun, Encode, Decode;
    RunInv(size, r, i);
    var s := r.states[i];
    assert ProcessFits(size, s.log, me, s.processes[me]);
    var w :| w in s.log && w.origin == d.0 && Decode(w) == d.1;
    OnlyOriginNotifies(size, r, i, w);
    var e :| e in s.processes[w.origin].accepted && Encode(w.origin, e, size) == w;
  }

  /** Over one connection a process hears exactly what the others sent meanwhile, in order. */
  lemma HearsAllOthers(size: Size, r: Run, i: nat, me: Origin)
    requires IsRun(size, r) && i < |r.states| && me in r.states[i].processes
    requires r.states[i].processes[me].connected
    ensures var s := r.states[i]; var p := s.processes[me];
      p.since <= p.cursor <= |s.log| && p.heard == FromOthers(s.log[p.since..p.cursor], me)
  {
    hide Relays, FromOthers, SentBy, IsRun;
    RunInv(size, r, i);
    assert ProcessFits(size, r.states[i].log, me, r.states[i].processes[me]);
  }
}
