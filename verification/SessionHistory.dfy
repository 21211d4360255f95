// What the history of a run says of its sessions: who they are, which of them the endpoint table
// names, when they are destroyed, and where the messages went.
module SessionHistory {
  import opened Wrappers
  import opened Framing
  import opened Sessions
  import opened SessionRuns

  // ------------------------------------------------------------- addresses

  /** How a session came about, and the address it is known by. */
  datatype Origin = Origin(outgoing: bool, ep: Address)

  // A header of session i is good, and its address can be told.
  predicate Taken(w: World, e: Event, i: nat, outgoing: bool) {
    Possible(w, e) && e.id == i && e.HeaderRead? && !e.error && e.header.accepted && (outgoing || e.peer.Some?)
  }

  // What an event makes of the origin o of session i.
  function Known(w: World, e: Event, i: nat, o: Option<Origin>): Option<Origin> {
    if i == |w.sessions| && e.Accept? then Some(Origin(false, e.remote))
    else if i == |w.sessions| && e.Send? && e.ep !in w.table then Some(Origin(true, e.ep))
    else if o.Some? && !o.value.outgoing && Taken(w, e, i, false)
      then Some(Origin(false, Address(e.peer.value, e.header.listenPort)))
    else o
  }

  // A connection made is known by the address it was made to; one accepted by its remote address,
  // and once it took a header by the port announced last.
  function Identity(events: seq<Event>, i: nat): Option<Origin> {
    if events == [] then None
    else Known(Run(events[..|events| - 1]), events[|events| - 1], i, Identity(events[..|events| - 1], i))
  }

  function OriginOf(t: Track): Origin {
    Origin(t.s.outgoing, t.s.ep)
  }

  function OriginIn(w: World, i: nat): Option<Origin> {
    if i < |w.sessions| then Some(OriginOf(w.sessions[i])) else None
  }

  // What a handler does to the address of its session and to the table.
  lemma ActionOf(t: Track, e: Event)
    requires !t.s.deleted && !e.Accept? && !e.Send? && (e.Written? ==> t.s.writeMsgs != [])
    requires e.Connected? ==> t.s.outgoing
    ensures var (u, a) := Handle(t, e);
            if e.HeaderRead? && !e.error && e.header.accepted && (t.s.outgoing || e.peer.Some?) then
              var ep := if t.s.outgoing then t.s.ep else Address(e.peer.value, e.header.listenPort);
              a == RegisterAt(ep) && OriginOf(u) == Origin(t.s.outgoing, ep)
            else a == (if u.s.deleted then EraseAt(t.s.ep) else Keep) && OriginOf(u) == OriginOf(t)
  {
    HandleShape(t, e);
  }

  lemma HandledStep(w: World, e: Event)
    requires AllFit(w) && Possible(w, e) && !w.sessions[e.id].s.deleted
    ensures var (t, v) := (w.sessions[e.id], Step(w, e));
            && (e.Written? ==> t.s.writeMsgs != []) && (e.Connected? ==> t.s.outgoing)
            && v.sessions == w.sessions[e.id := Handle(t, e).0]
            && v.table == Applied(w.table, Handle(t, e).1, e.id)
  {
    FitHandlerRuns(w, e);
    hide Handle;
    if e.Connected? { ConnectingIsOutgoing(w.sessions[e.id]); }
  }

  lemma ConnectingIsOutgoing(t: Track)
    requires Good(t) && Connecting in t.s.pending
    ensures t.s.outgoing
  {
  }

  lemma OriginAfterStep(w: World, e: Event, i: nat)
    requires AllFit(w) && i < |w.sessions|
    ensures i < |Step(w, e).sessions|
    ensures OriginOf(Step(w, e).sessions[i])
            == if !w.sessions[i].s.outgoing && Taken(w, e, i, false)
               then Origin(false, Address(e.peer.value, e.header.listenPort)) else OriginOf(w.sessions[i])
  {
    SessionsGrow(w, e);
    hide Handle, Good;
    if Possible(w, e) {
      if w.sessions[e.id].s.deleted {
        DestroyedHandlerRuns(w, e);
      } else {
        HandledStep(w, e);
        ActionOf(w.sessions[e.id], e);
      }
    }
  }

  lemma NewOrigin(w: World, e: Event)
    ensures |Step(w, e).sessions| == |w.sessions| || |Step(w, e).sessions| == |w.sessions| + 1
    ensures |Step(w, e).sessions| == |w.sessions| + 1 <==> e.Accept? || (e.Send? && e.ep !in w.table)
    ensures |Step(w, e).sessions| == |w.sessions| + 1 ==>
              OriginOf(Step(w, e).sessions[|w.sessions|])
              == if e.Accept? then Origin(false, e.remote) else Origin(true, e.ep)
  {
  }

  lemma KnownStep(w: World, e: Event, i: nat)
    requires AllFit(w)
    ensures OriginIn(Step(w, e), i) == Known(w, e, i, OriginIn(w, i))
  {
    hide Step, AllFit;
    NewOrigin(w, e);
    if i < |w.sessions| { OriginAfterStep(w, e, i); }
  }

  // Every session is known by that address, and no other session exists.
  lemma {:induction false} AddressOfSession(events: seq<Event>, i: nat)
    ensures Identity(events, i) == OriginIn(Run(events), i)
  {
    hide Step, AllFit, Known;
    if events != [] {
      var front := events[..|events| - 1];
      RunIsFit(front);
      AddressOfSession(front, i);
      KnownStep(Run(front), events[|front|], i);
    }
  }

  // ------------------------------------------------------- when a session goes

  predicate Fails(e: Event, outgoing: bool) {
    match e
    case Connected(_, error, _) => error
    case HeaderRead(_, error, header, peer) => error || !header.accepted || (!outgoing && peer.None?)
    case BodyRead(_, _, error, _) => error
    case Written(_, _, error) => error
    case _ => false
  }

  // A completion that fails while nothing else of its session, not destroyed yet, is in flight.
  predicate Last(w: World, e: Event, outgoing: bool) {
    && Possible(w, e) && !w.sessions[e.id].s.deleted
    && Fails(e, outgoing) && w.sessions[e.id].s.pending == multiset{Completes(e)}
  }

  lemma AloneInFlight(t: Track, op: Op)
    requires Good(t) && op in t.s.pending
    ensures t.s.refCount <= 2 <==> t.s.pending == multiset{op}
  {
    if IsRead(op) { ReadInFlight(t, op); } else { WriteInFlight(t, op.frame); }
    if t.s.refCount <= 2 { SoleOne(t.s.pending, op); }
  }

  lemma SoleOne(ops: multiset<Op>, op: Op)
    requires op in ops
    ensures |ops| <= 1 ==> ops == multiset{op}
  {
    assert ops == multiset{op} + (ops - multiset{op});
  }

  lemma DestroyedExactly(w: World, e: Event)
    requires AllFit(w) && Possible(w, e)
    ensures |Step(w, e).sessions| == |w.sessions|
    ensures Step(w, e).sessions[e.id].s.deleted
            <==> w.sessions[e.id].s.deleted || Last(w, e, w.sessions[e.id].s.outgoing)
  {
    if w.sessions[e.id].s.deleted {
      DestroyedHandlerRuns(w, e);
    } else {
      FitHandlerRuns(w, e);
      DestroysExactly(w.sessions[e.id], e);
      AloneInFlight(w.sessions[e.id], Completes(e));
    }
  }

  // --------------------------------------------------------------- the table

  // What an event of a session of origin o makes of the addresses m.
  function Renamed(w: World, e: Event, o: Option<Origin>, m: map<Address, nat>): map<Address, nat> {
    if !Possible(w, e) || o.None? then m
    else if Taken(w, e, e.id, o.value.outgoing) then
      m[(if o.value.outgoing then o.value.ep else Address(e.peer.value, e.header.listenPort)) := e.id]
    else if Last(w, e, o.value.outgoing) then m - {o.value.ep}
    else m
  }

  // Taking a header registers a session at its address, over any other; its destruction erases the
  // entry at its address, whichever session it names; and nothing else touches the addresses.
  function Registered(events: seq<Event>): map<Address, nat> {
    if events == [] then map[]
    else
      var (front, e) := (events[..|events| - 1], events[|events| - 1]);
      Renamed(Run(front), e, if e.Accept? || e.Send? then None else Identity(front, e.id), Registered(front))
  }

  lemma RenamedByHandler(w: World, e: Event)
    requires AllFit(w) && Possible(w, e)
    ensures Step(w, e).table == Renamed(w, e, OriginIn(w, e.id), w.table)
  {
    hide Step, Handle, Good, AllFit;
    if w.sessions[e.id].s.deleted {
      DestroyedHandlerRuns(w, e);
    } else {
      HandledStep(w, e);
      ActionOf(w.sessions[e.id], e);
      DestroyedExactly(w, e);
      TakenIsNotLast(w, e, w.sessions[e.id].s.outgoing);
    }
  }

  lemma TakenIsNotLast(w: World, e: Event, outgoing: bool)
    requires !e.Accept? && !e.Send?
    ensures !(Taken(w, e, e.id, outgoing) && Last(w, e, outgoing))
  {
  }

  lemma RenamedStep(w: World, e: Event)
    requires AllFit(w)
    ensures Step(w, e).table == Renamed(w, e, if e.Accept? || e.Send? then None else OriginIn(w, e.id), w.table)
  {
    if Possible(w, e) { RenamedByHandler(w, e); }
  }

  // The endpoint table holds exactly those registrations.
  lemma {:induction false} TableIsRegistered(events: seq<Event>)
    ensures Run(events).table == Registered(events)
  {
    hide Step, AllFit, Renamed, OriginIn;
    if events != [] {
      var (front, e) := (events[..|events| - 1], events[|events| - 1]);
      RunIsFit(front);
      TableIsRegistered(front);
      RenamedStep(Run(front), e);
      if !e.Accept? && !e.Send? { AddressOfSession(front, e.id); }
    }
  }

  // ------------------------------------------------------------ the messages

  // A message goes to the session registered at its address, behind everything delivered to it
  // before, or to a new connection made to that address; and to no other session.
  lemma SendReaches(events: seq<Event>, ep: Address, m: Frame)
    ensures var (w, v) := (Run(events), Run(events + [Send(ep, m)]));
            if ep in Registered(events) then
              var i := Registered(events)[ep];
              && i < |w.sessions| == |v.sessions|
              && v.sessions[i].delivered == w.sessions[i].delivered + [m]
              && forall j :: 0 <= j < |w.sessions| && j != i ==> v.sessions[j] == w.sessions[j]
            else
              && |v.sessions| == |w.sessions| + 1
              && OriginOf(v.sessions[|w.sessions|]) == Origin(true, ep)
              && v.sessions[|w.sessions|].delivered == [m]
              && forall j :: 0 <= j < |w.sessions| ==> v.sessions[j] == w.sessions[j]
  {
    TableIsRegistered(events);
    NothingSentIsLost(events);
    RunSnoc(events, Send(ep, m));
  }

  function SentMessages(events: seq<Event>): multiset<Frame> {
    if events == [] then multiset{}
    else
      var e := events[|events| - 1];
      SentMessages(events[..|events| - 1]) + (if e.Send? then multiset{e.m} else multiset{})
  }

  function AllDelivered(sessions: seq<Track>): multiset<Frame> {
    if sessions == [] then multiset{}
    else AllDelivered(sessions[..|sessions| - 1]) + multiset(sessions[|sessions| - 1].delivered)
  }

  ghost predicate InRange(w: World) {
    forall ep :: ep in w.table ==> w.table[ep] < |w.sessions|
  }

  lemma {:induction false} DeliveredAt(sessions: seq<Track>, i: nat, u: Track)
    requires i < |sessions|
    ensures AllDelivered(sessions[i := u]) + multiset(sessions[i].delivered)
            == AllDelivered(sessions) + multiset(u.delivered)
  {
    var n := |sessions| - 1;
    var changed := sessions[i := u];
    if i == n {
      assert changed[..n] == sessions[..n];
    } else {
      assert changed[..n] == sessions[..n][i := u] && changed[n] == sessions[n];
      DeliveredAt(sessions[..n], i, u);
      Regroup(AllDelivered(changed[..n]), multiset(sessions[i].delivered), AllDelivered(sessions[..n]),
        multiset(u.delivered), multiset(sessions[n].delivered));
    }
  }

  lemma Regroup<T>(a: multiset<T>, x: multiset<T>, b: multiset<T>, y: multiset<T>, rest: multiset<T>)
    requires a + x == b + y
    ensures (a + rest) + x == (b + rest) + y
  {
    assert (a + rest) + x == (a + x) + rest;
  }

  lemma DeliveredMore(sessions: seq<Track>, i: nat, u: Track, m: Frame)
    requires i < |sessions| && u.delivered == sessions[i].delivered + [m]
    ensures AllDelivered(sessions[i := u]) == AllDelivered(sessions) + multiset{m}
  {
    hide AllDelivered;
    DeliveredAt(sessions, i, u);
    var (a, b, d) := (AllDelivered(sessions[i := u]), AllDelivered(sessions), multiset(sessions[i].delivered));
    assert a + d == (b + multiset{m}) + d;
    assert a == (a + d) - d && b + multiset{m} == ((b + multiset{m}) + d) - d;
  }

  lemma DeliveredSame(sessions: seq<Track>, i: nat, u: Track)
    requires i < |sessions| && u.delivered == sessions[i].delivered
    ensures AllDelivered(sessions[i := u]) == AllDelivered(sessions)
  {
    hide AllDelivered;
    DeliveredAt(sessions, i, u);
    var (a, b, d) := (AllDelivered(sessions[i := u]), AllDelivered(sessions), multiset(sessions[i].delivered));
    assert a == (a + d) - d && b == (b + d) - d;
  }

  lemma DeliveredNew(sessions: seq<Track>, u: Track)
    ensures AllDelivered(sessions + [u]) == AllDelivered(sessions) + multiset(u.delivered)
  {
    assert (sessions + [u])[..|sessions|] == sessions;
  }

  lemma HandleDeliversNothing(t: Track, e: Event)
    requires !e.Accept? && !e.Send? && (e.Written? && !e.error ==> t.s.writeMsgs != [])
    ensures Handle(t, e).0.delivered == t.delivered
  {
  }

  lemma HandlerKeepsDelivered(w: World, e: Event)
    requires Possible(w, e) && InRange(w)
    ensures InRange(Step(w, e)) && AllDelivered(Step(w, e).sessions) == AllDelivered(w.sessions)
  {
    hide Handle, AllDelivered;
    var t := w.sessions[e.id];
    if !t.s.deleted && !(e.Written? && !e.error && t.s.writeMsgs == []) {
      HandleDeliversNothing(t, e);
      DeliveredSame(w.sessions, e.id, Handle(t, e).0);
    }
  }

  lemma SendDelivers(w: World, e: Event)
    requires (e.Accept? || e.Send?) && InRange(w)
    ensures InRange(Step(w, e))
    ensures AllDelivered(Step(w, e).sessions)
            == AllDelivered(w.sessions) + (if e.Send? then multiset{e.m} else multiset{})
  {
    hide AllDelivered, OnDeliver, OnStart, OnConnect;
    if e.Send? && e.ep in w.table {
      var i := w.table[e.ep];
      DeliveredMore(w.sessions, i, Delivered(w.sessions[i], e.m), e.m);
    } else if e.Send? {
      DeliveredNew(w.sessions, Delivered(FRESH.(s := OnConnect(NEW, e.ep)), e.m));
    } else {
      DeliveredNew(w.sessions, FRESH.(s := OnStart(NEW, e.remote)));
    }
  }

  // In every run the messages sent are those delivered to the sessions, none lost and none twice.
  lemma {:induction false} NothingSentIsLost(events: seq<Event>)
    ensures InRange(Run(events)) && AllDelivered(Run(events).sessions) == SentMessages(events)
  {
    if events != [] {
      hide Step, InRange, AllDelivered;
      var (front, e) := (events[..|events| - 1], events[|events| - 1]);
      NothingSentIsLost(front);
      if e.Accept? || e.Send? { SendDelivers(Run(front), e); }
      else if Possible(Run(front), e) { HandlerKeepsDelivered(Run(front), e); }
    }
  }
}
