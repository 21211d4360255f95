// Many sessions over any interleaving of completions, deliveries and new connections.
module SessionRuns {
  import opened Wrappers
  import opened Framing
  import opened Sessions

  /** A session with its history: what was delivered to it, what was written out, which of its
      two chains of operations has failed, and whether a message callback threw. */
  datatype Track = Track(
    s: SessionState,
    delivered: seq<Frame>,
    written: seq<Frame>,
    readFailed: bool,
    readThrew: bool,
    writeFailed: bool)

  /** Sessions by number, the endpoint table, and two faults: a completion handler that runs on
      a destroyed session or pops an empty queue, and a delivery to a destroyed session. */
  datatype World = World(sessions: seq<Track>, table: map<Address, nat>, handlerFault: bool, deliveryFault: bool)

  datatype Event =
    | Accept(remote: Address)
    | Send(ep: Address, m: Frame)
    | Connected(id: nat, error: bool, remote: Address)
    | HeaderRead(id: nat, error: bool, header: Header, peer: Option<string>)
    | BodyRead(id: nat, length: nat, error: bool, threw: bool)
    | Written(id: nat, m: Frame, error: bool)

  const EMPTY: World := World([], map[], false, false)

  // The operation whose completion an event is.
  function Completes(e: Event): Op
    requires !e.Accept? && !e.Send?
  {
    match e
    case Connected(_, _, _) => Connecting
    case HeaderRead(_, _, _, _) => ReadingHeader
    case BodyRead(_, length, _, _) => ReadingBody(length)
    case Written(_, m, _) => Writing(m)
  }

  function Handle(t: Track, e: Event): (Track, MapAction)
    requires !e.Accept? && !e.Send? && (e.Written? && !e.error ==> t.s.writeMsgs != [])
  {
    match e
    case Connected(_, error, remote) =>
      var (s, a) := OnConnected(t.s, error, remote);
      (t.(s := s, readFailed := t.readFailed || error), a)
    case HeaderRead(_, error, header, peer) =>
      var (s, a) := OnHeader(t.s, error, header, peer);
      (t.(s := s, readFailed := t.readFailed || !HeaderTaken(t.s, error, header, peer)), a)
    case BodyRead(_, length, error, threw) =>
      var (s, a) := OnBody(t.s, length, error, threw);
      (t.(s := s, readFailed := t.readFailed || error, readThrew := t.readThrew || (!error && threw)), a)
    case Written(_, m, error) =>
      var (s, a) := OnWritten(t.s, m, error);
      (t.(s := s, writeFailed := t.writeFailed || error, written := if error then t.written else t.written + [m]), a)
  }

  function Delivered(t: Track, m: Frame): Track {
    t.(s := OnDeliver(t.s, m), delivered := t.delivered + [m])
  }

  const FRESH: Track := Track(NEW, [], [], false, false, false)

  // An event whose operation is not in flight cannot happen and changes nothing. A message for
  // a destroyed session is delivered to it all the same.
  function Step(w: World, e: Event): World {
    match e
    case Accept(remote) => w.(sessions := w.sessions + [FRESH.(s := OnStart(NEW, remote))])
    case Send(ep, m) =>
      if ep !in w.table then
        w.(sessions := w.sessions + [Delivered(FRESH.(s := OnConnect(NEW, ep)), m)])
      else if w.table[ep] >= |w.sessions| then w.(deliveryFault := true)
      else
        var t := w.sessions[w.table[ep]];
        w.(sessions := w.sessions[w.table[ep] := Delivered(t, m)], deliveryFault := w.deliveryFault || t.s.deleted)
    case _ => if Possible(w, e) then HandlerStep(w, e) else w
  }

  predicate Possible(w: World, e: Event) {
    !e.Accept? && !e.Send? && e.id < |w.sessions| && Completes(e) in w.sessions[e.id].s.pending
  }

  function HandlerStep(w: World, e: Event): World
    requires Possible(w, e)
  {
    var t := w.sessions[e.id];
    if t.s.deleted || (e.Written? && !e.error && t.s.writeMsgs == []) then w.(handlerFault := true)
    else
      var (u, a) := Handle(t, e);
      w.(sessions := w.sessions[e.id := u], table := Applied(w.table, a, e.id))
  }

  function Run(events: seq<Event>): World {
    if events == [] then EMPTY else Step(Run(events[..|events| - 1]), events[|events| - 1])
  }

  // ------------------------------------------------ one session's invariant

  function Failures(t: Track): nat {
    (if t.readFailed then 1 else 0) + (if t.writeFailed then 1 else 0)
  }

  predicate IsRead(op: Op) {
    !op.Writing?
  }

  // The operation the write chain has in flight.
  function WriteOps(t: Track): multiset<Op> {
    if t.writeFailed || t.s.writeMsgs == [] then multiset{} else multiset{Writing(t.s.writeMsgs[0])}
  }

  // The read chain is over: an operation failed, or the message callback threw.
  predicate ReadOver(t: Track) {
    t.readFailed || t.readThrew
  }

  // The operations in flight: the read chain has one until it is over, the write chain has the
  // front of the queue, if any, until it fails.
  ghost predicate Chains(t: Track) {
    if ReadOver(t) then t.s.pending == WriteOps(t)
    else exists r :: IsRead(r) && t.s.pending == multiset{r} + WriteOps(t)
  }

  ghost predicate Good(t: Track) {
    && t.s.refCount == 1 + |t.s.pending| - Failures(t)
    && Chains(t)
    && (t.writeFailed ==> t.s.writeMsgs != [])
    && t.delivered == t.written + t.s.writeMsgs
    && (t.s.deleted ==> t.s.pending == multiset{})
    && (t.readFailed && t.writeFailed ==> t.s.deleted)
    && (Connecting in t.s.pending ==> t.s.outgoing)
  }

  // No operation in flight, and not destroyed.
  predicate Idle(t: Track) {
    t.s.pending == multiset{} && !t.s.deleted
  }

  lemma FreshIsGood(remote: Address, ep: Address, m: Frame)
    ensures Good(FRESH.(s := OnStart(NEW, remote)))
    ensures Good(Delivered(FRESH.(s := OnConnect(NEW, ep)), m))
  {
    var a, b := FRESH.(s := OnStart(NEW, remote)), Delivered(FRESH.(s := OnConnect(NEW, ep)), m);
    assert IsRead(ReadingHeader) && a.s.pending == multiset{ReadingHeader} + WriteOps(a);
    assert IsRead(Connecting) && b.s.pending == multiset{Connecting} + WriteOps(b);
  }

  // A destroyed session with a nonempty queue only gets a longer queue.
  lemma DeliverKeepsGood(t: Track, m: Frame)
    requires Good(t) && (t.s.deleted ==> t.s.writeMsgs != [])
    ensures Good(Delivered(t, m))
  {
    if t.s.writeMsgs == [] { DeliverFirst(t, m); } else { DeliverBehind(t, m); }
  }

  lemma DeliverBehind(t: Track, m: Frame)
    requires Good(t) && t.s.writeMsgs != []
    ensures Good(Delivered(t, m))
  {
    var u := Delivered(t, m);
    assert u.s.pending == t.s.pending && WriteOps(u) == WriteOps(t);
  }

  lemma DeliverFirst(t: Track, m: Frame)
    requires Good(t) && !t.s.deleted && t.s.writeMsgs == []
    ensures Good(Delivered(t, m))
  {
    var u := Delivered(t, m);
    assert WriteOps(u) == multiset{Writing(m)} && WriteOps(t) == multiset{};
    if !ReadOver(t) {
      var r :| IsRead(r) && t.s.pending == multiset{r} + WriteOps(t);
      assert u.s.pending == multiset{r} + WriteOps(u);
    }
  }

  lemma ReadInFlight(t: Track, op: Op)
    requires Good(t) && IsRead(op) && op in t.s.pending
    ensures !ReadOver(t) && t.s.pending - multiset{op} == WriteOps(t) && |t.s.pending| == 1 + |WriteOps(t)|
  {
    if !ReadOver(t) {
      var r :| IsRead(r) && t.s.pending == multiset{r} + WriteOps(t);
      assert r == op;
    }
  }

  lemma ReadGoesOn(t: Track, op: Op, next: Op, ep: Address)
    requires Good(t) && !t.s.deleted && IsRead(op) && IsRead(next) && next != Connecting && op in t.s.pending
    ensures var u := t.(s := Issue(Complete(t.s, op).(ep := ep), next)); Good(u) && !Idle(u)
  {
    ReadInFlight(t, op);
    var u := t.(s := Issue(Complete(t.s, op).(ep := ep), next));
    assert WriteOps(u) == WriteOps(t);
    assert u.s.pending == multiset{next} + WriteOps(u) && next in u.s.pending;
  }

  lemma ReadFails(t: Track, op: Op)
    requires Good(t) && !t.s.deleted && IsRead(op) && op in t.s.pending
    ensures var u := t.(s := OnRelease(Complete(t.s, op)).0, readFailed := true); Good(u) && !Idle(u)
  {
    ReadInFlight(t, op);
    var u := t.(s := OnRelease(Complete(t.s, op)).0, readFailed := true);
    assert WriteOps(u) == WriteOps(t);
  }

  lemma ReadStops(t: Track, op: Op)
    requires Good(t) && !t.s.deleted && IsRead(op) && op in t.s.pending
    ensures var u := t.(s := Complete(t.s, op), readThrew := true); Good(u) && (Idle(u) <==> WriteOps(t) == multiset{})
  {
    ReadInFlight(t, op);
    var u := t.(s := Complete(t.s, op), readThrew := true);
    assert WriteOps(u) == WriteOps(t);
  }

  // Each completion of the read chain keeps the invariant.
  lemma ReadKeepsGood(t: Track, e: Event)
    requires Good(t) && !t.s.deleted
    requires e.Connected? || e.HeaderRead? || e.BodyRead?
    requires Completes(e) in t.s.pending
    ensures Good(Handle(t, e).0)
  {
    var op := Completes(e);
    ReadInFlight(t, op);
    ReadFails(t, op);
    match e
    case Connected(_, _, _) => ReadGoesOn(t, op, ReadingHeader, t.s.ep);
    case HeaderRead(_, error, h, peer) =>
      if HeaderTaken(t.s, error, h, peer) {
        ReadGoesOn(t, op, ReadingBody(h.bodyLength), HeaderAddress(t.s, h, peer));
      }
    case BodyRead(_, _, error, threw) =>
      if !error && threw { ReadStops(t, op); } else { ReadGoesOn(t, op, ReadingHeader, t.s.ep); }
  }

  lemma WriteInFlight(t: Track, m: Frame)
    requires Good(t) && Writing(m) in t.s.pending
    ensures !t.writeFailed && t.s.writeMsgs != [] && m == t.s.writeMsgs[0] && WriteOps(t) == multiset{Writing(m)}
  {
    if !ReadOver(t) {
      var r :| IsRead(r) && t.s.pending == multiset{r} + WriteOps(t);
    }
    assert Writing(m) in WriteOps(t);
  }

  lemma WriteFails(t: Track, m: Frame)
    requires Good(t) && !t.s.deleted && Writing(m) in t.s.pending
    ensures var u := t.(s := OnRelease(Complete(t.s, Writing(m))).0, writeFailed := true); Good(u) && !Idle(u)
  {
    WriteInFlight(t, m);
    var u := t.(s := OnRelease(Complete(t.s, Writing(m))).0, writeFailed := true);
    if ReadOver(t) {
      assert u.s.pending == multiset{};
    } else {
      var r :| IsRead(r) && t.s.pending == multiset{r} + WriteOps(t);
      assert u.s.pending == multiset{r};
      assert u.s.pending == multiset{r} + WriteOps(u);
    }
  }

  // The session after a write that went well.
  function WroteOne(t: Track, m: Frame): Track
    requires t.s.writeMsgs != []
  {
    t.(s := OnWritten(t.s, m, false).0, written := t.written + [m])
  }

  lemma WroteOneShape(t: Track, m: Frame)
    requires t.s.writeMsgs != [] && !t.writeFailed && t.s.writeMsgs[0] == m
    ensures var u := WroteOne(t, m);
            && u == t.(s := u.s, written := u.written) && u.s.deleted == t.s.deleted && u.s.outgoing == t.s.outgoing
            && t.written + t.s.writeMsgs == u.written + u.s.writeMsgs
            && u.s.pending == t.s.pending - multiset{Writing(m)} + WriteOps(u)
            && u.s.refCount == t.s.refCount - 1 + |WriteOps(u)|
  {
    assert t.s.writeMsgs == [m] + t.s.writeMsgs[1..];
  }

  lemma WriteGoesOn(t: Track, m: Frame)
    requires Good(t) && !t.s.deleted && Writing(m) in t.s.pending && t.s.writeMsgs != []
    ensures Good(WroteOne(t, m))
  {
    var u, rest := WroteOne(t, m), t.s.pending - multiset{Writing(m)};
    WriteInFlight(t, m);
    WroteOneShape(t, m);
    hide Good, Chains, WriteOps, WroteOne;
    assert |rest| == |t.s.pending| - 1 && |u.s.pending| == |rest| + |WriteOps(u)|;
    WriteGoesOnChains(t, u, m);
    GoodAfterWrite(t, u);
  }

  // A write that went well changes the queue, the log, and the write in flight.
  lemma GoodAfterWrite(t: Track, u: Track)
    requires Good(t) && !t.s.deleted && !t.writeFailed && Chains(u)
    requires u == t.(s := u.s, written := u.written) && u.s.deleted == t.s.deleted && u.s.outgoing == t.s.outgoing
    requires u.s.refCount - |u.s.pending| == t.s.refCount - |t.s.pending|
    requires t.written + t.s.writeMsgs == u.written + u.s.writeMsgs
    requires Connecting in u.s.pending ==> Connecting in t.s.pending
    ensures Good(u)
  {
  }

  lemma WriteGoesOnChains(t: Track, u: Track, m: Frame)
    requires Chains(t) && !t.writeFailed && t.s.writeMsgs != [] && WriteOps(t) == multiset{Writing(m)}
    requires u.s.pending == t.s.pending - multiset{Writing(m)} + WriteOps(u) && ReadOver(u) == ReadOver(t)
    ensures Chains(u)
  {
    if !ReadOver(t) {
      var r :| IsRead(r) && t.s.pending == multiset{r} + WriteOps(t);
      assert t.s.pending - multiset{Writing(m)} == multiset{r};
    }
  }

  // So does each completion of the write chain; what was written is the front of the queue.
  lemma WriteKeepsGood(t: Track, e: Event)
    requires Good(t) && !t.s.deleted && e.Written? && Completes(e) in t.s.pending
    ensures t.s.writeMsgs != [] && e.m == t.s.writeMsgs[0] && Good(Handle(t, e).0)
  {
    WriteInFlight(t, e.m);
    if e.error { WriteFails(t, e.m); } else { WriteGoesOn(t, e.m); }
  }

  // ------------------------------------------------------------ every run

  ghost predicate AllGood(w: World) {
    forall i :: 0 <= i < |w.sessions| ==> Good(w.sessions[i])
  }

  lemma HandleKeepsGood(t: Track, e: Event)
    requires Good(t) && !e.Accept? && !e.Send? && Completes(e) in t.s.pending
    ensures !t.s.deleted && (e.Written? ==> t.s.writeMsgs != []) && Good(Handle(t, e).0)
  {
    if e.Written? { WriteKeepsGood(t, e); } else { ReadKeepsGood(t, e); }
  }

  // A message for a destroyed session whose queue is empty, so that it is handed to the socket.
  predicate Haunts(w: World, e: Event) {
    && e.Send? && e.ep in w.table && w.table[e.ep] < |w.sessions|
    && w.sessions[w.table[e.ep]].s.deleted && w.sessions[w.table[e.ep]].s.writeMsgs == []
  }

  lemma StepKeepsGood(w: World, e: Event)
    requires AllGood(w) && !w.handlerFault && !Haunts(w, e)
    ensures AllGood(Step(w, e)) && !Step(w, e).handlerFault
  {
    match e
    case Accept(remote) => FreshIsGood(remote, UNSET, Frame(0, ""));
    case Send(ep, m) => SendKeepsGood(w, ep, m);
    case _ => if Possible(w, e) { HandlerStepKeepsGood(w, e); }
  }

  lemma SendKeepsGood(w: World, ep: Address, m: Frame)
    requires AllGood(w) && !w.handlerFault && !Haunts(w, Send(ep, m))
    ensures AllGood(Step(w, Send(ep, m))) && !Step(w, Send(ep, m)).handlerFault
  {
    var v := Step(w, Send(ep, m));
    if ep !in w.table {
      FreshIsGood(UNSET, ep, m);
      AppendKeepsGood(w, v, Delivered(FRESH.(s := OnConnect(NEW, ep)), m));
    } else if w.table[ep] < |w.sessions| {
      DeliverKeepsGood(w.sessions[w.table[ep]], m);
      ReplaceKeepsGood(w, v, w.table[ep], Delivered(w.sessions[w.table[ep]], m));
    }
  }

  // A completion runs its handler: no fault, and only its session and the table change.
  lemma HandlerRuns(w: World, e: Event)
    requires AllGood(w) && Possible(w, e)
    ensures var t := w.sessions[e.id];
            && !t.s.deleted && (e.Written? ==> t.s.writeMsgs != []) && Good(Handle(t, e).0)
            && HandlerStep(w, e)
               == w.(sessions := w.sessions[e.id := Handle(t, e).0], table := Applied(w.table, Handle(t, e).1, e.id))
  {
    HandleKeepsGood(w.sessions[e.id], e);
  }

  lemma ReplaceKeepsGood(w: World, v: World, i: nat, u: Track)
    requires AllGood(w) && Good(u) && i < |w.sessions| && v.sessions == w.sessions[i := u]
    ensures AllGood(v)
  {
  }

  lemma AppendKeepsGood(w: World, v: World, u: Track)
    requires AllGood(w) && Good(u) && v.sessions == w.sessions + [u]
    ensures AllGood(v)
  {
  }

  lemma HandlerStepKeepsGood(w: World, e: Event)
    requires AllGood(w) && !w.handlerFault && Possible(w, e)
    ensures AllGood(HandlerStep(w, e)) && !HandlerStep(w, e).handlerFault
  {
    HandlerRuns(w, e);
    ReplaceKeepsGood(w, HandlerStep(w, e), e.id, Handle(w.sessions[e.id], e).0);
  }

  // What holds of a session in every run, haunted or not: its invariant, or it was destroyed and at
  // most writes are in flight.
  ghost predicate Fit(t: Track) {
    Good(t) || (t.s.deleted && forall op :: op in t.s.pending ==> !IsRead(op))
  }

  ghost predicate AllFit(w: World) {
    forall i :: 0 <= i < |w.sessions| ==> Fit(w.sessions[i])
  }

  // A completion of a session that was not destroyed runs its handler.
  lemma FitHandlerRuns(w: World, e: Event)
    requires AllFit(w) && Possible(w, e) && !w.sessions[e.id].s.deleted
    ensures var t := w.sessions[e.id];
            && Good(t) && (e.Written? ==> t.s.writeMsgs != []) && Good(Handle(t, e).0)
            && Step(w, e)
               == w.(sessions := w.sessions[e.id := Handle(t, e).0], table := Applied(w.table, Handle(t, e).1, e.id))
  {
    HandleKeepsGood(w.sessions[e.id], e);
  }

  // A completion of one that was changes nothing but the fault.
  lemma DestroyedHandlerRuns(w: World, e: Event)
    requires AllFit(w) && Possible(w, e) && w.sessions[e.id].s.deleted
    ensures e.Written? && Step(w, e) == w.(handlerFault := true)
  {
  }

  lemma DeliverKeepsFit(t: Track, m: Frame)
    requires Fit(t)
    ensures Fit(Delivered(t, m))
  {
    if Good(t) && (t.s.deleted ==> t.s.writeMsgs != []) { DeliverKeepsGood(t, m); }
  }

  lemma SendKeepsFit(w: World, e: Event)
    requires AllFit(w) && (e.Accept? || e.Send?)
    ensures AllFit(Step(w, e))
  {
    hide Good, Handle;
    if e.Accept? {
      FreshIsGood(e.remote, UNSET, Frame(0, ""));
    } else {
      FreshIsGood(UNSET, e.ep, e.m);
      if e.ep in w.table && w.table[e.ep] < |w.sessions| { DeliverKeepsFit(w.sessions[w.table[e.ep]], e.m); }
    }
  }

  lemma HandlerKeepsFit(w: World, e: Event)
    requires AllFit(w) && Possible(w, e)
    ensures AllFit(Step(w, e))
  {
    hide Good, Handle;
    if w.sessions[e.id].s.deleted { DestroyedHandlerRuns(w, e); } else { FitHandlerRuns(w, e); }
  }

  lemma {:induction false} RunIsFit(events: seq<Event>)
    ensures AllFit(Run(events))
  {
    hide AllFit, Step;
    if events == [] {
      NobodyIsUnfit();
    } else {
      var (w, e) := (Run(events[..|events| - 1]), events[|events| - 1]);
      RunIsFit(events[..|events| - 1]);
      if e.Accept? || e.Send? { SendKeepsFit(w, e); }
      else if Possible(w, e) { HandlerKeepsFit(w, e); }
      else { NothingHappens(w, e); }
    }
  }

  lemma NobodyIsUnfit()
    ensures AllFit(EMPTY)
  {
  }

  lemma NothingHappens(w: World, e: Event)
    requires !e.Accept? && !e.Send? && !Possible(w, e)
    ensures Step(w, e) == w
  {
  }

  ghost predicate Unhaunted(events: seq<Event>) {
    forall n :: 0 <= n < |events| ==> !Haunts(Run(events[..n]), events[n])
  }

  // No completion handler can run on a destroyed session.
  ghost predicate Safe(w: World) {
    forall e :: Possible(w, e) ==> !w.sessions[e.id].s.deleted
  }

  lemma UnhauntedFront(events: seq<Event>, n: nat)
    requires Unhaunted(events) && n <= |events|
    ensures Unhaunted(events[..n])
  {
    forall k | 0 <= k < n ensures !Haunts(Run(events[..n][..k]), events[..n][k]) {
      assert events[..n][..k] == events[..k];
    }
  }

  // While no message haunts a destroyed session the reference count is one plus the operations in
  // flight less the failures seen, a destroyed session has no operation in flight, no handler runs
  // on one, and it is destroyed once.
  lemma {:induction false} UnhauntedIsGood(events: seq<Event>)
    requires Unhaunted(events)
    ensures AllGood(Run(events)) && Safe(Run(events)) && !Run(events).handlerFault
  {
    if events != [] {
      var n := |events| - 1;
      UnhauntedFront(events, n);
      UnhauntedIsGood(events[..n]);
      StepKeepsGood(Run(events[..n]), events[n]);
    }
    GoodIsSafe(Run(events));
  }

  lemma GoodIsSafe(w: World)
    requires AllGood(w)
    ensures Safe(w)
  {
  }

  lemma HauntingIsUnsafe(w: World, e: Event)
    requires Haunts(w, e)
    ensures !Safe(Step(w, e)) && Step(w, e).deliveryFault
    ensures Step(Step(w, e), Written(w.table[e.ep], e.m, true)).handlerFault
  {
    var done := Written(w.table[e.ep], e.m, true);
    assert Completes(done) in Step(w, e).sessions[done.id].s.pending;
    assert Possible(Step(w, e), done);
  }

  // A completion can arrive at a destroyed session a message was just handed to exactly when its
  // queue was empty, and whichever one arrives runs on the destroyed session.
  lemma DeliveryToDestroyed(w: World, ep: Address, m: Frame)
    requires AllGood(w) && ep in w.table && w.table[ep] < |w.sessions| && w.sessions[w.table[ep]].s.deleted
    ensures var (i, v) := (w.table[ep], Step(w, Send(ep, m)));
            && v.deliveryFault
            && ((exists e :: Possible(v, e) && e.id == i) <==> w.sessions[i].s.writeMsgs == [])
            && forall e :: Possible(v, e) && e.id == i ==> Step(v, e).handlerFault
  {
    var (i, v) := (w.table[ep], Step(w, Send(ep, m)));
    if w.sessions[i].s.writeMsgs == [] {
      assert Possible(v, Written(i, m, true)) && Written(i, m, true).id == i;
    }
  }

  // Throughout a run no completion handler can run on a destroyed session if and only if no message
  // of the run haunts one.
  lemma NoHandlerAfterDestruction(events: seq<Event>)
    ensures (forall n :: 0 <= n <= |events| ==> Safe(Run(events[..n]))) <==> Unhaunted(events)
  {
    if forall n :: 0 <= n <= |events| ==> Safe(Run(events[..n])) {
      forall n | 0 <= n < |events| ensures !Haunts(Run(events[..n]), events[n]) {
        RunStep(events, n);
        assert Safe(Run(events[..n + 1]));
        if Haunts(Run(events[..n]), events[n]) { HauntingIsUnsafe(Run(events[..n]), events[n]); }
      }
    }
    if Unhaunted(events) {
      forall n | 0 <= n <= |events| ensures Safe(Run(events[..n])) {
        UnhauntedFront(events, n);
        UnhauntedIsGood(events[..n]);
      }
    }
  }

  // At most one write is in flight; before a write error one is in flight exactly when the
  // queue is nonempty; and nothing delivered is lost, reordered or written twice.
  lemma WriteQueue(events: seq<Event>, i: nat)
    requires Unhaunted(events) && i < |Run(events).sessions|
    ensures var t := Run(events).sessions[i];
            && t.delivered == t.written + t.s.writeMsgs
            && (forall m, n :: Writing(m) in t.s.pending && Writing(n) in t.s.pending
                 ==> m == n && t.s.pending[Writing(m)] == 1)
            && (!t.writeFailed ==> (t.s.writeMsgs != [] <==> exists m :: Writing(m) in t.s.pending))
  {
    UnhauntedIsGood(events);
    var t := Run(events).sessions[i];
    if !ReadOver(t) {
      var r :| IsRead(r) && t.s.pending == multiset{r} + WriteOps(t);
    }
    if !t.writeFailed && t.s.writeMsgs != [] {
      assert Writing(t.s.writeMsgs[0]) in WriteOps(t);
    }
  }

  // -------------------------------------------------------- abandoned sessions

  // The completions that leave a session so: the last queued write succeeds after the read chain
  // is over, or the message callback throws while nothing is being written.
  predicate Abandons(t: Track, e: Event) {
    || (e.Written? && !e.error && ReadOver(t) && |t.s.writeMsgs| == 1)
    || (e.BodyRead? && !e.error && e.threw && WriteOps(t) == multiset{})
  }

  lemma IdleAfterExactly(t: Track, e: Event)
    requires Good(t) && !e.Accept? && !e.Send? && Completes(e) in t.s.pending
    ensures (e.Written? && !e.error ==> t.s.writeMsgs != []) && !t.s.deleted
    ensures Idle(Handle(t, e).0) <==> Abandons(t, e)
  {
    HandleKeepsGood(t, e);
    if e.Written? { IdleAfterWrite(t, e); } else { IdleAfterRead(t, e); }
  }

  lemma IdleAfterRead(t: Track, e: Event)
    requires Good(t) && !t.s.deleted
    requires e.Connected? || e.HeaderRead? || e.BodyRead?
    requires Completes(e) in t.s.pending
    ensures Idle(Handle(t, e).0) <==> Abandons(t, e)
  {
    var op := Completes(e);
    ReadInFlight(t, op);
    ReadFails(t, op);
    match e
    case Connected(_, _, _) => ReadGoesOn(t, op, ReadingHeader, t.s.ep);
    case HeaderRead(_, error, h, peer) =>
      if HeaderTaken(t.s, error, h, peer) {
        ReadGoesOn(t, op, ReadingBody(h.bodyLength), HeaderAddress(t.s, h, peer));
      }
    case BodyRead(_, _, error, threw) =>
      if !error && threw { ReadStops(t, op); } else { ReadGoesOn(t, op, ReadingHeader, t.s.ep); }
  }

  lemma IdleAfterWrite(t: Track, e: Event)
    requires Good(t) && !t.s.deleted && e.Written? && Completes(e) in t.s.pending && t.s.writeMsgs != []
    ensures Idle(Handle(t, e).0) <==> Abandons(t, e)
  {
    WriteInFlight(t, e.m);
    if e.error {
      WriteFails(t, e.m);
    } else {
      IdleAfterLastWrite(t, e.m);
    }
  }

  lemma IdleAfterLastWrite(t: Track, m: Frame)
    requires Good(t) && !t.s.deleted && Writing(m) in t.s.pending && t.s.writeMsgs != []
    ensures Idle(WroteOne(t, m)) <==> ReadOver(t) && |t.s.writeMsgs| == 1
  {
    WriteInFlight(t, m);
    var u := WroteOne(t, m);
    assert u.s.writeMsgs == t.s.writeMsgs[1..] && !u.writeFailed && !u.s.deleted && ReadOver(u) == ReadOver(t);
    hide Good, WroteOne, Idle;
    WriteGoesOn(t, m);
    IdleCounts(u);
  }

  // A session is idle exactly when its read chain is over, it has nothing to write that it still
  // could, and it was not destroyed.
  lemma IdleCounts(t: Track)
    requires Good(t)
    ensures Idle(t) <==> ReadOver(t) && WriteOps(t) == multiset{} && !t.s.deleted
  {
    if !ReadOver(t) {
      var r :| IsRead(r) && t.s.pending == multiset{r} + WriteOps(t);
      assert r in t.s.pending;
    }
  }

  lemma InFlightCount(t: Track)
    requires Good(t)
    ensures |t.s.pending| == (if ReadOver(t) then 0 else 1) + (if t.writeFailed || t.s.writeMsgs == [] then 0 else 1)
  {
    if !ReadOver(t) {
      var r :| IsRead(r) && t.s.pending == multiset{r} + WriteOps(t);
    }
  }

  // The event abandons session i.
  predicate AbandonsAt(w: World, e: Event, i: nat) {
    Possible(w, e) && e.id == i && Abandons(w.sessions[i], e)
  }

  // The event delivers a message to session i while nothing is queued there.
  predicate Revives(w: World, e: Event, i: nat) {
    e.Send? && e.ep in w.table && w.table[e.ep] == i && i < |w.sessions| && w.sessions[i].s.writeMsgs == []
  }

  lemma IdleAfterStep(w: World, e: Event, i: nat)
    requires AllGood(w) && !Haunts(w, e) && i < |Step(w, e).sessions|
    ensures Idle(Step(w, e).sessions[i])
            <==> AbandonsAt(w, e, i) || (i < |w.sessions| && Idle(w.sessions[i]) && !Revives(w, e, i))
  {
    if Possible(w, e) {
      HandlerRuns(w, e);
      IdleAfterExactly(w.sessions[e.id], e);
    } else if e.Accept? || e.Send? {
      IdleAfterSend(w, e, i);
    }
  }

  lemma IdleAfterSend(w: World, e: Event, i: nat)
    requires (e.Accept? || e.Send?) && i < |Step(w, e).sessions|
    ensures Idle(Step(w, e).sessions[i]) <==> i < |w.sessions| && Idle(w.sessions[i]) && !Revives(w, e, i)
  {
    var v := Step(w, e);
    if i == |w.sessions| {
      assert (if e.Accept? then ReadingHeader else Connecting) in v.sessions[i].s.pending;
    } else if Revives(w, e, i) {
      assert Writing(e.m) in v.sessions[i].s.pending;
    }
  }

  // Some event of the run abandoned session i, and nothing later revived it.
  ghost predicate Abandoned(events: seq<Event>, i: nat) {
    exists n :: 0 <= n < |events| && AbandonedBy(events, i, n)
  }

  ghost predicate AbandonedBy(events: seq<Event>, i: nat, n: nat)
    requires n < |events|
  {
    && AbandonsAt(Run(events[..n]), events[n], i)
    && forall k :: n < k < |events| ==> !Revives(Run(events[..k]), events[k], i)
  }

  lemma AbandonedSnoc(events: seq<Event>, e: Event, i: nat)
    ensures Abandoned(events + [e], i)
            <==> AbandonsAt(Run(events), e, i) || (Abandoned(events, i) && !Revives(Run(events), e, i))
  {
    var (all, l) := (events + [e], |events|);
    assert all[..l] == events;
    forall n | 0 <= n < l ensures AbandonedBy(all, i, n) <==> AbandonedBy(events, i, n) && !Revives(Run(events), e, i) {
      AbandonedLonger(events, e, i, n);
    }
    if AbandonsAt(Run(events), e, i) { assert AbandonedBy(all, i, l); }
    if Abandoned(all, i) {
      var n :| 0 <= n < |all| && AbandonedBy(all, i, n);
    }
    if Abandoned(events, i) && !Revives(Run(events), e, i) {
      var n :| 0 <= n < l && AbandonedBy(events, i, n);
      assert AbandonedBy(all, i, n);
    }
  }

  lemma AbandonedLonger(events: seq<Event>, e: Event, i: nat, n: nat)
    requires n < |events|
    ensures AbandonedBy(events + [e], i, n) <==> AbandonedBy(events, i, n) && !Revives(Run(events), e, i)
  {
    var (all, l) := (events + [e], |events|);
    forall k | 0 <= k <= l ensures all[..k] == events[..k] {}
    assert events[..l] == events && all[l] == e;
    assert all[n] == events[n] && Run(all[..n]) == Run(events[..n]);
    forall k | n < k < l ensures Revives(Run(all[..k]), all[k], i) <==> Revives(Run(events[..k]), events[k], i) {
      assert all[..k] == events[..k];
    }
  }

  lemma RunSnoc(events: seq<Event>, e: Event)
    ensures Run(events + [e]) == Step(Run(events), e)
  {
    assert (events + [e])[..|events|] == events;
  }

  // A session ends up with nothing in flight and not destroyed exactly when it was abandoned.
  lemma {:induction false} IdleExactlyWhenAbandoned(events: seq<Event>, i: nat)
    requires Unhaunted(events)
    ensures i < |Run(events).sessions| && Idle(Run(events).sessions[i]) <==> Abandoned(events, i)
  {
    hide Idle, Abandoned, Run, Unhaunted;
    if events == [] {
      NobodyAtStart(i);
    } else {
      var (front, e) := (events[..|events| - 1], events[|events| - 1]);
      assert events == front + [e];
      UnhauntedFront(events, |front|);
      IdleExactlyWhenAbandoned(front, i);
      IdleSnoc(front, e, i);
    }
  }

  lemma NobodyAtStart(i: nat)
    ensures Run([]).sessions == [] && !Abandoned([], i)
  {
  }

  lemma IdleSnoc(events: seq<Event>, e: Event, i: nat)
    requires Unhaunted(events) && Unhaunted(events + [e])
    requires i < |Run(events).sessions| && Idle(Run(events).sessions[i]) <==> Abandoned(events, i)
    ensures i < |Run(events + [e]).sessions| && Idle(Run(events + [e]).sessions[i]) <==> Abandoned(events + [e], i)
  {
    var all, w := events + [e], Run(events);
    hide Run, Idle, Step, AbandonsAt, Revives, Haunts, AllGood, Abandoned, Safe;
    assert !Haunts(Run(all[..|events|]), all[|events|]) && all[..|events|] == events;
    UnhauntedIsGood(events);
    AbandonedSnoc(events, e, i);
    RunSnoc(events, e);
    SessionsGrow(w, e);
    NothingBeyond(w, e, i);
    if i < |Step(w, e).sessions| { IdleAfterStep(w, e, i); }
  }

  lemma NothingBeyond(w: World, e: Event, i: nat)
    ensures AbandonsAt(w, e, i) ==> i < |w.sessions|
  {
  }

  // What such a session looks like: unless its callback threw it has no reference left to give
  // back, and unless a write failed everything delivered to it was written.
  lemma IdleSessionsAreLeaked(events: seq<Event>, i: nat)
    requires Unhaunted(events) && i < |Run(events).sessions| && Idle(Run(events).sessions[i])
    ensures var t := Run(events).sessions[i];
            && ReadOver(t)
            && (t.readFailed ==> t.s.refCount == 0 && !t.writeFailed)
            && (!t.writeFailed ==> t.s.writeMsgs == [] && t.written == t.delivered)
  {
    UnhauntedIsGood(events);
    InFlightCount(Run(events).sessions[i]);
  }

  lemma SessionsGrow(w: World, e: Event)
    ensures |Step(w, e).sessions| >= |w.sessions|
  {
  }

  // A world of one session.
  function Single(t: Track): World {
    World([t], map[], false, false)
  }

  lemma SingleStep(t: Track, e: Event)
    requires !e.Accept? && !e.Send? && e.id == 0 && Completes(e) in t.s.pending && !t.s.deleted
    requires e.Written? ==> t.s.writeMsgs != []
    requires Handle(t, e).1 == Keep
    ensures Step(Single(t), e) == Single(Handle(t, e).0)
  {
    assert [t][0 := Handle(t, e).0] == [Handle(t, e).0];
  }

  // The first read fails before the first message is written: one session in four states.
  function Leaking(ep: Address, m: Frame, pending: multiset<Op>, refCount: int, failed: bool): Track {
    Track(SessionState(true, ep, refCount, [m], pending, false), [m], [], failed, false, false)
  }

  lemma LeakStarts(ep: Address, m: Frame)
    ensures Step(EMPTY, Send(ep, m)) == Single(Leaking(ep, m, multiset{Connecting, Writing(m)}, 3, false))
  {
    var t := Delivered(FRESH.(s := OnConnect(NEW, ep)), m);
    assert multiset{} + multiset{Connecting} + multiset{Writing(m)} == multiset{Connecting, Writing(m)};
    assert [] + [m] == [m] && [] + [t] == [t];
  }

  lemma LeakConnects(ep: Address, m: Frame, remote: Address)
    ensures Step(Single(Leaking(ep, m, multiset{Connecting, Writing(m)}, 3, false)), Connected(0, false, remote))
            == Single(Leaking(ep, m, multiset{ReadingHeader, Writing(m)}, 3, false))
  {
    var t := Leaking(ep, m, multiset{Connecting, Writing(m)}, 3, false);
    SingleStep(t, Connected(0, false, remote));
    assert multiset{Connecting, Writing(m)} - multiset{Connecting} + multiset{ReadingHeader}
           == multiset{ReadingHeader, Writing(m)};
  }

  lemma LeakReadFails(ep: Address, m: Frame, h: Header)
    ensures Step(Single(Leaking(ep, m, multiset{ReadingHeader, Writing(m)}, 3, false)), HeaderRead(0, true, h, None))
            == Single(Leaking(ep, m, multiset{Writing(m)}, 1, true))
  {
    var t := Leaking(ep, m, multiset{ReadingHeader, Writing(m)}, 3, false);
    SingleStep(t, HeaderRead(0, true, h, None));
    assert multiset{ReadingHeader, Writing(m)} - multiset{ReadingHeader} == multiset{Writing(m)};
  }

  lemma LeakWrites(ep: Address, m: Frame)
    ensures var v := Step(Single(Leaking(ep, m, multiset{Writing(m)}, 1, true)), Written(0, m, false));
            !v.deliveryFault && |v.sessions| == 1 && Idle(v.sessions[0]) && v.sessions[0].s.refCount == 0
  {
    var t := Leaking(ep, m, multiset{Writing(m)}, 1, true);
    SingleStep(t, Written(0, m, false));
    assert multiset{Writing(m)} - multiset{Writing(m)} == multiset{};
  }

  // Such runs exist: a connection is made, its first read fails, and then the message it was made
  // for is written.
  lemma ReadErrorBeforeWriteLeaks(ep: Address, remote: Address, h: Header, m: Frame)
    ensures var w := Run([Send(ep, m), Connected(0, false, remote),
            HeaderRead(0, true, h, None), Written(0, m, false)]);
            !w.deliveryFault && |w.sessions| == 1 && Idle(w.sessions[0]) && w.sessions[0].s.refCount == 0
  {
    var (a, b, c, d) := (Send(ep, m), Connected(0, false, remote), HeaderRead(0, true, h, None), Written(0, m, false));
    LeakStarts(ep, m);
    LeakConnects(ep, m, remote);
    LeakReadFails(ep, m, h);
    LeakWrites(ep, m);
    FourSteps([a, b, c, d]);
  }

  lemma FourSteps(run: seq<Event>)
    requires |run| == 4
    ensures Run(run) == Step(Step(Step(Step(EMPTY, run[0]), run[1]), run[2]), run[3])
  {
    assert run[..4] == run && run[..0] == [];
    assert Run([]) == EMPTY;
    hide Run, Step;
    RunStep(run, 0);
    RunStep(run, 1);
    RunStep(run, 2);
    RunStep(run, 3);
  }

  // ------------------------------------------------- the endpoint table

  // Every entry points to a live session registered at that endpoint; an accepted session is
  // only ever registered at its home address.
  ghost predicate TableSound(w: World, home: nat -> Address) {
    forall ep :: ep in w.table ==> Points(w, home, ep, w.table[ep])
  }

  ghost predicate Points(w: World, home: nat -> Address, ep: Address, id: nat) {
    id < |w.sessions| && !w.sessions[id].s.deleted && w.sessions[id].s.ep == ep
    && (!w.sessions[id].s.outgoing ==> ep == home(id))
  }

  // The peer of an accepted session always announces the same address.
  ghost predicate Steady(w: World, home: nat -> Address, e: Event) {
    && e.HeaderRead?
    && Possible(w, e)
    && !w.sessions[e.id].s.outgoing
    && HeaderTaken(w.sessions[e.id].s, e.error, e.header, e.peer)
    ==>
      HeaderAddress(w.sessions[e.id].s, e.header, e.peer) == home(e.id)
  }

  ghost predicate SteadyRun(events: seq<Event>, home: nat -> Address) {
    forall n :: 0 <= n < |events| ==> Steady(Run(events[..n]), home, events[n])
  }

  // What a handler does to a session's address and life, and to the table.
  ghost predicate Shape(t: Track, u: Track, a: MapAction) {
    && u.s.outgoing == t.s.outgoing
    && (u.s.deleted ==> a == EraseAt(u.s.ep))
    && (!u.s.deleted ==> a == Keep || a == RegisterAt(u.s.ep))
    && (t.s.outgoing || !a.RegisterAt? ==> u.s.ep == t.s.ep)
  }

  lemma ReleaseShape(s: SessionState)
    requires !s.deleted
    ensures var (r, a) := OnRelease(s);
            r.outgoing == s.outgoing && r.ep == s.ep && (if r.deleted then a == EraseAt(r.ep) else a == Keep)
  {
  }

  lemma HeaderShape(t: Track, e: Event)
    requires !t.s.deleted && e.HeaderRead?
    ensures Shape(t, Handle(t, e).0, Handle(t, e).1)
    ensures Handle(t, e).1.RegisterAt? ==>
              HeaderTaken(t.s, e.error, e.header, e.peer) && Handle(t, e).0.s.ep == HeaderAddress(t.s, e.header, e.peer)
  {
    ReleaseShape(Complete(t.s, ReadingHeader));
  }

  lemma HandleShape(t: Track, e: Event)
    requires !t.s.deleted && !e.Accept? && !e.Send? && (e.Written? ==> t.s.writeMsgs != [])
    requires e.Connected? ==> t.s.outgoing
    ensures Shape(t, Handle(t, e).0, Handle(t, e).1)
    ensures Handle(t, e).1.RegisterAt? ==>
              e.HeaderRead? && HeaderTaken(t.s, e.error, e.header, e.peer)
                  && Handle(t, e).0.s.ep == HeaderAddress(t.s, e.header, e.peer)
  {
    ReleaseShape(Complete(t.s, Completes(e)));
    if e.HeaderRead? { HeaderShape(t, e); }
  }

  // The table after one session changed as a handler changes it: every entry still points to a
  // live session, because a session that is destroyed erases the only entry that points to it.
  lemma PointsAfterHandler(w: World, v: World, home: nat -> Address, id: nat, u: Track, a: MapAction, ep: Address)
    requires TableSound(w, home) && id < |w.sessions| && !w.sessions[id].s.deleted && Shape(w.sessions[id], u, a)
    requires v.sessions == w.sessions[id := u] && v.table == Applied(w.table, a, id) && ep in v.table
    requires a.RegisterAt? && !u.s.outgoing ==> u.s.ep == home(id)
    ensures Points(v, home, ep, v.table[ep])
  {
    if !(a.RegisterAt? && a.ep == ep) {
      assert Points(w, home, ep, w.table[ep]);
    }
  }

  lemma HandlerKeepsTable(w: World, home: nat -> Address, e: Event)
    requires AllGood(w) && TableSound(w, home) && Possible(w, e) && Steady(w, home, e)
    ensures TableSound(HandlerStep(w, e), home) && HandlerStep(w, e).deliveryFault == w.deliveryFault
  {
    var v, t := HandlerStep(w, e), w.sessions[e.id];
    HandlerRuns(w, e);
    HandleShape(t, e);
    forall ep | ep in v.table ensures Points(v, home, ep, v.table[ep]) {
      PointsAfterHandler(w, v, home, e.id, Handle(t, e).0, Handle(t, e).1, ep);
    }
  }

  // Connecting, accepting and delivering leave the table and every session's endpoint alone.
  lemma SendKeepsTable(w: World, home: nat -> Address, e: Event)
    requires TableSound(w, home) && (e.Accept? || e.Send?)
    ensures TableSound(Step(w, e), home) && Step(w, e).deliveryFault == w.deliveryFault
  {
    var v := Step(w, e);
    if e.Send? && e.ep in w.table { assert Points(w, home, e.ep, w.table[e.ep]); }
    forall ep | ep in v.table ensures Points(v, home, ep, v.table[ep]) {
      assert Points(w, home, ep, w.table[ep]);
    }
  }

  lemma StepKeepsTable(w: World, home: nat -> Address, e: Event)
    requires AllGood(w) && TableSound(w, home) && Steady(w, home, e)
    ensures TableSound(Step(w, e), home) && Step(w, e).deliveryFault == w.deliveryFault
  {
    if e.Accept? || e.Send? { SendKeepsTable(w, home, e); }
    else if Possible(w, e) { HandlerKeepsTable(w, home, e); }
  }

  // ------------------------------------------------- entries that outlive their session

  // Every entry of the table names a session that was not destroyed.
  ghost predicate Live(w: World) {
    forall ep :: ep in w.table ==> Alive(w, w.table[ep])
  }

  predicate Alive(w: World, id: nat) {
    id < |w.sessions| && !w.sessions[id].s.deleted
  }

  // The completions that release the session.
  predicate Releases(t: Track, e: Event) {
    match e
    case Connected(_, error, _) => error
    case HeaderRead(_, error, header, peer) => !HeaderTaken(t.s, error, header, peer)
    case BodyRead(_, _, error, _) => error
    case Written(_, _, error) => error
    case _ => false
  }

  // A completion destroys its session while an entry other than that at its address names it.
  ghost predicate Orphans(w: World, e: Event) {
    && Possible(w, e)
    && Releases(w.sessions[e.id], e)
    && w.sessions[e.id].s.refCount <= 2
    && exists ep :: ep in w.table && w.table[ep] == e.id && ep != w.sessions[e.id].s.ep
  }

  lemma DestroysExactly(t: Track, e: Event)
    requires !t.s.deleted && !e.Accept? && !e.Send? && (e.Written? ==> t.s.writeMsgs != [])
    ensures Handle(t, e).0.s.deleted <==> Releases(t, e) && t.s.refCount <= 2
  {
  }

  // The table after one session changed as a handler changes it.
  lemma LiveAfterHandler(w: World, v: World, id: nat, u: Track, a: MapAction)
    requires Live(w) && Alive(w, id) && Shape(w.sessions[id], u, a)
    requires v.sessions == w.sessions[id := u] && v.table == Applied(w.table, a, id)
    ensures Live(v) <==> !(u.s.deleted && exists ep :: ep in w.table && w.table[ep] == id && ep != w.sessions[id].s.ep)
  {
    forall ep | ep in w.table ensures w.table[ep] != id ==> Alive(v, w.table[ep]) {
      assert Alive(w, w.table[ep]);
    }
    if u.s.deleted {
      forall ep | ep in w.table && w.table[ep] == id && ep != w.sessions[id].s.ep ensures !Live(v) {
        assert ep in v.table && !Alive(v, v.table[ep]);
      }
    } else {
      assert Alive(v, id);
    }
  }

  lemma HandlerLiveExactly(w: World, e: Event)
    requires AllGood(w) && Live(w) && Possible(w, e)
    ensures Live(Step(w, e)) <==> !Orphans(w, e)
    ensures Step(w, e).deliveryFault == w.deliveryFault
  {
    var t := w.sessions[e.id];
    HandlerRuns(w, e);
    HandleShape(t, e);
    DestroysExactly(t, e);
    LiveAfterHandler(w, Step(w, e), e.id, Handle(t, e).0, Handle(t, e).1);
  }

  lemma SendKeepsLive(w: World, e: Event)
    requires Live(w) && (e.Accept? || e.Send?)
    ensures Live(Step(w, e)) && Step(w, e).deliveryFault == w.deliveryFault && !Haunts(w, e)
  {
    if e.Send? && e.ep in w.table { assert Alive(w, w.table[e.ep]); }
    forall ep | ep in w.table ensures Alive(Step(w, e), w.table[ep]) {
      assert Alive(w, w.table[ep]);
    }
  }

  // One step: every entry names a live session still exactly when the step orphans none; and while
  // they do, nothing is delivered to a destroyed session and no handler runs on one.
  lemma LiveStep(w: World, e: Event)
    requires AllGood(w) && Live(w) && !w.handlerFault
    ensures Live(Step(w, e)) <==> !Orphans(w, e)
    ensures AllGood(Step(w, e)) && !Step(w, e).handlerFault && Step(w, e).deliveryFault == w.deliveryFault
    ensures !Haunts(w, e)
  {
    if e.Accept? || e.Send? {
      SendKeepsLive(w, e);
    } else if Possible(w, e) {
      HandlerLiveExactly(w, e);
    }
    StepKeepsGood(w, e);
  }

  lemma AtTheStart(events: seq<Event>)
    ensures var w := Run(events[..0]); Live(w) && AllGood(w) && !w.deliveryFault && !w.handlerFault
  {
    assert events[..0] == [];
  }

  ghost predicate NothingOrphaned(events: seq<Event>, n: nat)
    requires n <= |events|
  {
    forall k :: 0 <= k < n ==> !Orphans(Run(events[..k]), events[k])
  }

  lemma {:induction false} NothingOrphanedNothingFaults(events: seq<Event>, n: nat)
    requires n <= |events| && NothingOrphaned(events, n)
    ensures var w := Run(events[..n]); Live(w) && AllGood(w) && !w.deliveryFault && !w.handlerFault
  {
    AtTheStart(events);
    hide Run, Step, Live, Orphans, AllGood, Haunts;
    if n > 0 {
      NothingOrphanedNothingFaults(events, n - 1);
      RunStep(events, n - 1);
      LiveStep(Run(events[..n - 1]), events[n - 1]);
    }
  }

  lemma {:induction false} LiveSoFar(events: seq<Event>, n: nat)
    requires n <= |events| && forall k :: 0 <= k <= |events| ==> Live(Run(events[..k]))
    ensures NothingOrphaned(events, n)
  {
    hide Run, Step, Live, Orphans, AllGood, Haunts;
    if n > 0 {
      LiveSoFar(events, n - 1);
      NothingOrphanedNothingFaults(events, n - 1);
      RunStep(events, n - 1);
      LiveStep(Run(events[..n - 1]), events[n - 1]);
    }
  }

  // Every entry names a live session throughout a run if and only if no completion of it orphans
  // an entry.
  lemma LiveExactlyWhenNothingOrphaned(events: seq<Event>)
    ensures (forall n :: 0 <= n <= |events| ==> Live(Run(events[..n]))) <==> NothingOrphaned(events, |events|)
  {
    if forall n :: 0 <= n <= |events| ==> Live(Run(events[..n])) {
      LiveSoFar(events, |events|);
    }
    if NothingOrphaned(events, |events|) {
      forall n | 0 <= n <= |events| ensures Live(Run(events[..n])) {
        NothingOrphanedNothingFaults(events, n);
      }
    }
  }

  // ------------------------------------------- peers that change their address

  ghost predicate Sound(w: World) {
    forall ep :: ep in w.table ==> LiveAt(w, ep, w.table[ep])
  }

  predicate LiveAt(w: World, ep: Address, id: nat) {
    id < |w.sessions| && !w.sessions[id].s.deleted && w.sessions[id].s.ep == ep
  }

  // An accepted session that is in the table at its address takes a header announcing another.
  predicate Strands(w: World, e: Event) {
    && e.HeaderRead?
    && Possible(w, e)
    && !w.sessions[e.id].s.outgoing
    && HeaderTaken(w.sessions[e.id].s, e.error, e.header, e.peer)
    && HeaderAddress(w.sessions[e.id].s, e.header, e.peer) != w.sessions[e.id].s.ep
    && w.sessions[e.id].s.ep in w.table
    && w.table[w.sessions[e.id].s.ep] == e.id
  }

  // The addresses the sessions announce if the event does not strand an entry.
  ghost function Announced(w: World, e: Event): nat -> Address {
    (id: nat) =>
      if id >= |w.sessions| then UNSET
      else if e.HeaderRead? && e.id == id && HeaderTaken(w.sessions[id].s, e.error, e.header, e.peer)
        then HeaderAddress(w.sessions[id].s, e.header, e.peer)
      else w.sessions[id].s.ep
  }

  lemma AnnouncedIsHome(w: World, e: Event)
    requires Sound(w) && Possible(w, e) && !Strands(w, e)
    ensures TableSound(w, Announced(w, e)) && Steady(w, Announced(w, e), e)
  {
    var home := Announced(w, e);
    forall ep | ep in w.table ensures Points(w, home, ep, w.table[ep]) {
      assert LiveAt(w, ep, w.table[ep]);
    }
  }

  lemma PointsAreLive(w: World, home: nat -> Address)
    requires TableSound(w, home)
    ensures Sound(w)
  {
    forall ep | ep in w.table ensures LiveAt(w, ep, w.table[ep]) {
      assert Points(w, home, ep, w.table[ep]);
    }
  }

  lemma SendKeepsSound(w: World, e: Event)
    requires Sound(w) && (e.Accept? || e.Send?)
    ensures Sound(Step(w, e))
  {
    var home := (id: nat) => if id < |w.sessions| then w.sessions[id].s.ep else UNSET;
    forall ep | ep in w.table ensures Points(w, home, ep, w.table[ep]) {
      assert LiveAt(w, ep, w.table[ep]);
    }
    SendKeepsTable(w, home, e);
    PointsAreLive(Step(w, e), home);
  }

  lemma NotStrandingIsEnough(w: World, e: Event)
    requires AllGood(w) && Sound(w) && !Strands(w, e)
    ensures Sound(Step(w, e))
  {
    if e.Accept? || e.Send? {
      SendKeepsSound(w, e);
    } else if Possible(w, e) {
      AnnouncedIsHome(w, e);
      StepKeepsTable(w, Announced(w, e), e);
      PointsAreLive(Step(w, e), Announced(w, e));
    }
  }

  lemma StrandingBreaksTable(w: World, e: Event)
    requires AllGood(w) && Strands(w, e)
    ensures !Sound(Step(w, e))
  {
    var v, ep := Step(w, e), w.sessions[e.id].s.ep;
    HandlerRuns(w, e);
    assert ep in v.table && v.table[ep] == e.id;
    assert !LiveAt(v, ep, e.id);
  }

  // A table that is sound is live, and no completion orphans an entry of it.
  lemma SoundIsLive(w: World, e: Event)
    requires Sound(w)
    ensures Live(w) && !Orphans(w, e)
  {
    forall ep | ep in w.table ensures Alive(w, w.table[ep]) && w.sessions[w.table[ep]].s.ep == ep {
      assert LiveAt(w, ep, w.table[ep]);
    }
  }

  ghost predicate NothingStranded(events: seq<Event>, n: nat)
    requires n <= |events|
  {
    forall k :: 0 <= k < n ==> !Strands(Run(events[..k]), events[k])
  }

  lemma SoundStep(events: seq<Event>, n: nat)
    requires n < |events| && Sound(Run(events[..n])) && NothingOrphaned(events, n)
    ensures Sound(Run(events[..n + 1])) <==> !Strands(Run(events[..n]), events[n])
    ensures NothingOrphaned(events, n + 1)
  {
    var w, e := Run(events[..n]), events[n];
    hide Run, Step, Live, Sound, Orphans, Strands, AllGood;
    NothingOrphanedNothingFaults(events, n);
    RunStep(events, n);
    SoundIsLive(w, e);
    if Strands(w, e) { StrandingBreaksTable(w, e); } else { NotStrandingIsEnough(w, e); }
  }

  // While no header changes the address of a session registered at its old one, the table stays
  // sound and nothing is orphaned.
  lemma {:induction false} NothingStrandedNothingOrphaned(events: seq<Event>, n: nat)
    requires n <= |events| && NothingStranded(events, n)
    ensures Sound(Run(events[..n])) && NothingOrphaned(events, n)
  {
    if n == 0 {
      assert events[..0] == [];
    } else {
      hide Sound, Strands, NothingOrphaned;
      NothingStrandedNothingOrphaned(events, n - 1);
      SoundStep(events, n - 1);
    }
  }

  // So every session keeps its invariant, nothing is delivered to a destroyed one, and no handler
  // runs on one.
  lemma NothingStrandsNothingFaults(events: seq<Event>, n: nat)
    requires n <= |events| && NothingStranded(events, n)
    ensures var w := Run(events[..n]); Sound(w) && AllGood(w) && !w.deliveryFault && !w.handlerFault
  {
    NothingStrandedNothingOrphaned(events, n);
    NothingOrphanedNothingFaults(events, n);
  }

  lemma {:induction false} SoundSoFar(events: seq<Event>, n: nat)
    requires n <= |events| && forall k :: 0 <= k <= |events| ==> Sound(Run(events[..k]))
    ensures NothingStranded(events, n)
  {
    hide Run, Sound, Strands, NothingOrphaned;
    if n > 0 {
      SoundSoFar(events, n - 1);
      NothingStrandedNothingOrphaned(events, n - 1);
      SoundStep(events, n - 1);
    }
  }

  // The table stays sound through a whole run exactly when no step of it strands an entry.
  lemma SoundExactlyWhenNothingStrands(events: seq<Event>)
    ensures (forall n :: 0 <= n <= |events| ==> Sound(Run(events[..n]))) <==> NothingStranded(events, |events|)
  {
    if forall n :: 0 <= n <= |events| ==> Sound(Run(events[..n])) {
      SoundSoFar(events, |events|);
    }
    if NothingStranded(events, |events|) {
      forall n | 0 <= n <= |events| ensures Sound(Run(events[..n])) {
        NothingStrandedNothingOrphaned(events, n);
      }
    }
  }

  // With one announced address per connection no entry of the table ever dangles: each points
  // to a live session whose endpoint it is, though newer sessions replace older ones and the
  // older ones are erased by endpoint. So nothing is orphaned, nothing is delivered to a destroyed
  // session, and no handler runs on one.
  lemma {:induction false} NoDanglingEntry(events: seq<Event>, home: nat -> Address, n: nat)
    requires n <= |events| && SteadyRun(events, home)
    ensures TableSound(Run(events[..n]), home) && NothingOrphaned(events, n)
    ensures var w := Run(events[..n]); AllGood(w) && !w.deliveryFault && !w.handlerFault
  {
    hide Run, SteadyRun, Steady, TableSound, NothingOrphaned, AllGood;
    if n == 0 {
      SteadyAtStart(events, home);
    } else {
      NoDanglingEntry(events, home, n - 1);
      SteadyAt(events, home, n - 1);
      SteadyStep(events, home, n - 1);
    }
    NothingOrphanedNothingFaults(events, n);
  }

  lemma SteadyAtStart(events: seq<Event>, home: nat -> Address)
    ensures TableSound(Run(events[..0]), home) && NothingOrphaned(events, 0)
  {
    assert events[..0] == [];
  }

  lemma SteadyAt(events: seq<Event>, home: nat -> Address, n: nat)
    requires SteadyRun(events, home) && n < |events|
    ensures Steady(Run(events[..n]), home, events[n])
  {
  }

  lemma SteadyStep(events: seq<Event>, home: nat -> Address, n: nat)
    requires n < |events| && TableSound(Run(events[..n]), home) && NothingOrphaned(events, n)
    requires Steady(Run(events[..n]), home, events[n])
    ensures TableSound(Run(events[..n + 1]), home) && NothingOrphaned(events, n + 1)
  {
    var w, e := Run(events[..n]), events[n];
    hide Run, Step, Live, Sound, TableSound, Steady, Orphans, AllGood;
    NothingOrphanedNothingFaults(events, n);
    RunStep(events, n);
    PointsAreLive(w, home);
    SoundIsLive(w, e);
    StepKeepsTable(w, home, e);
  }

  lemma RunStep(events: seq<Event>, n: nat)
    requires n < |events|
    ensures Run(events[..n + 1]) == Step(Run(events[..n]), events[n])
  {
    assert events[..n + 1][..n] == events[..n];
  }

  // An accepted session with one operation in flight, alone in its world.
  function Lone(ep: Address, op: Op, table: map<Address, nat>): World {
    World([FRESH.(s := SessionState(false, ep, 2, [], multiset{op}, false))], table, false, false)
  }

  function GoodHeader(host: string, port: nat): Event {
    HeaderRead(0, false, Header(true, 0, port), Some(host))
  }

  lemma Alone(t: Track, u: Track, op: Op, next: Op)
    ensures [t][0 := u] == [u]
    ensures multiset{op} - multiset{op} + multiset{next} == multiset{next}
  {
  }

  lemma LoneHeader(ep: Address, table: map<Address, nat>, host: string, port: nat)
    ensures var a := Address(host, port);
            Step(Lone(ep, ReadingHeader, table), GoodHeader(host, port)) == Lone(a, ReadingBody(0), table[a := 0])
  {
    var (w, v) := (Lone(ep, ReadingHeader, table), Lone(Address(host, port), ReadingBody(0), table));
    Alone(w.sessions[0], v.sessions[0], ReadingHeader, ReadingBody(0));
  }

  lemma LoneBody(ep: Address, table: map<Address, nat>)
    ensures Step(Lone(ep, ReadingBody(0), table), BodyRead(0, 0, false, false)) == Lone(ep, ReadingHeader, table)
    ensures var v := Step(Lone(ep, ReadingBody(0), table), BodyRead(0, 0, true, false));
            v.table == table - {ep} && |v.sessions| == 1 && v.sessions[0].s.deleted && v.sessions[0].s.writeMsgs == []
  {
    var (w, v) := (Lone(ep, ReadingBody(0), table), Lone(ep, ReadingHeader, table));
    Alone(w.sessions[0], v.sessions[0], ReadingBody(0), ReadingHeader);
  }

  lemma LoneAccept(remote: Address)
    ensures Step(EMPTY, Accept(remote)) == Lone(remote, ReadingHeader, map[])
  {
    var t := FRESH.(s := OnStart(NEW, remote));
    assert multiset{} + multiset{ReadingHeader} == multiset{ReadingHeader};
    assert [] + [t] == [t];
  }

  lemma FiveSteps(run: seq<Event>)
    requires |run| == 5
    ensures Run(run) == Step(Step(Step(Step(Step(EMPTY, run[0]), run[1]), run[2]), run[3]), run[4])
  {
    assert run[..5] == run && run[..0] == [];
    assert Run([]) == EMPTY;
    hide Run, Step;
    RunStep(run, 0);
    RunStep(run, 1);
    RunStep(run, 2);
    RunStep(run, 3);
    RunStep(run, 4);
  }

  function TwoPorts(remote: Address, host: string): seq<Event> {
    var (ok, hangUp) := (BodyRead(0, 0, false, false), BodyRead(0, 0, true, false));
    [Accept(remote), GoodHeader(host, 1), ok, GoodHeader(host, 2), hangUp]
  }

  // A peer that announces port 1, then port 2, and hangs up leaves a dangling entry. The next
  // message sent to its first address is delivered to a destroyed session, and then the
  // completion of that write runs on it.
  lemma TwoPortsLeaveDanglingEntry(remote: Address, host: string, m: Frame, error: bool)
    ensures var (a, w) := (Address(host, 1), Run(TwoPorts(remote, host)));
            && a in w.table && w.table[a] == 0 && |w.sessions| == 1 && w.sessions[0].s.deleted
            && Run(TwoPorts(remote, host) + [Send(a, m)]).deliveryFault
            && Run(TwoPorts(remote, host) + [Send(a, m)] + [Written(0, m, error)]).handlerFault
  {
    var (a, b, run) := (Address(host, 1), Address(host, 2), TwoPorts(remote, host));
    FiveSteps(run);
    LoneAccept(remote);
    LoneHeader(remote, map[], host, 1);
    LoneBody(a, map[a := 0]);
    LoneHeader(a, map[a := 0], host, 2);
    LoneBody(b, map[a := 0, b := 0]);
    RunSnoc(run, Send(a, m));
    RunSnoc(run + [Send(a, m)], Written(0, m, error));
    WriteOnDestroyed(Run(run), a, m, error);
  }

  lemma WriteOnDestroyed(w: World, ep: Address, m: Frame, error: bool)
    requires ep in w.table && w.table[ep] < |w.sessions|
    requires var t := w.sessions[w.table[ep]]; t.s.deleted && t.s.writeMsgs == []
    ensures var v := Step(w, Send(ep, m)); v.deliveryFault && Step(v, Written(w.table[ep], m, error)).handlerFault
  {
    var v := Step(w, Send(ep, m));
    assert Writing(m) in v.sessions[w.table[ep]].s.pending;
  }
}
