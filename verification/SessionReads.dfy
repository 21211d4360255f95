// What a session reads off its connection, completion by completion, and what it passes on.
module SessionReads {
  import opened Wrappers
  import opened Framing
  import opened Sessions
  import opened SessionRuns

  // A header that is taken makes room for the read of exactly the body it announces.
  lemma TakenHeaderReadsBody(w: World, e: Event)
    requires AllFit(w) && Possible(w, e) && e.HeaderRead? && !e.error && e.header.accepted
    requires w.sessions[e.id].s.outgoing || e.peer.Some?
    ensures |Step(w, e).sessions| == |w.sessions|
    ensures Step(w, e).sessions[e.id].s.pending
            == w.sessions[e.id].s.pending - multiset{ReadingHeader} + multiset{ReadingBody(e.header.bodyLength)}
  {
    FitHandlerRuns(w, e);
  }

  /** The reader of one session over the bytes of its connection: how many it took, where the frame
      begins that it is in, the port its header announced, and the frames it passed on. */
  datatype Reader = Reader(taken: nat, start: nat, port: nat, frames: seq<Frame>)

  const AT_START: Reader := Reader(0, 0, 0, [])

  // A read of session i comes to its end without error.
  predicate Completed(w: World, e: Event, i: nat) {
    Possible(w, e) && e.id == i && (e.HeaderRead? || e.BodyRead?) && !e.error
  }

  function Piece(stream: string, i: nat, n: nat): string {
    if i + n <= |stream| then stream[i..i + n] else []
  }

  function AfterRead(r: Reader, e: Event, stream: string): Reader
    requires e.HeaderRead? || e.BodyRead?
  {
    if e.HeaderRead? then r.(taken := r.taken + HEADER_LENGTH, port := e.header.listenPort)
    else
      var next := r.taken + e.length;
      Reader(next, next, r.port, r.frames + [Frame(r.port, Piece(stream, r.taken, e.length))])
  }

  // What session i took of a stream over a run.
  function Reads(events: seq<Event>, i: nat, stream: string): Reader {
    if events == [] then AT_START
    else
      var (front, e) := (events[..|events| - 1], events[|events| - 1]);
      var r := Reads(front, i, stream);
      if Completed(Run(front), e, i) then AfterRead(r, e, stream) else r
  }

  // The bytes are there, and a header is decoded from its sixteen.
  predicate ComesFrom(r: Reader, e: Event, stream: string)
    requires e.HeaderRead? || e.BodyRead?
  {
    if e.HeaderRead? then
      r.taken + HEADER_LENGTH <= |stream| && e.header == DecodedHeader(stream[r.taken..r.taken + HEADER_LENGTH])
    else r.taken + e.length <= |stream|
  }

  // The reads of session i bring the bytes of the stream, in order.
  ghost predicate Brings(events: seq<Event>, i: nat, stream: string) {
    forall n :: 0 <= n < |events| && Completed(Run(events[..n]), events[n], i)
        ==> ComesFrom(Reads(events[..n], i, stream), events[n], stream)
  }

  // Where a session stands in its stream: it passed on the frames before the one it is in, and of
  // that it took nothing, or a header that announces the body it is reading.
  ghost predicate Follows(t: Track, r: Reader, stream: string) {
    && r.start <= r.taken <= |stream|
    && ReadAll(stream) == r.frames + ReadAll(stream[r.start..])
    && (Connecting in t.s.pending || ReadingHeader in t.s.pending ==> r.taken == r.start)
    && forall n :: ReadingBody(n) in t.s.pending ==> InBody(r, stream, n)
  }

  predicate InBody(r: Reader, stream: string, n: nat) {
    && r.taken == r.start + HEADER_LENGTH <= |stream|
    && DecodedHeader(stream[r.start..r.taken]) == Header(true, n, r.port)
  }

  lemma BodyIsNext(r: Reader, stream: string, n: nat)
    requires InBody(r, stream, n) && r.taken + n <= |stream|
    ensures ReadAll(stream[r.start..])
            == [Frame(r.port, Piece(stream, r.taken, n))] + ReadAll(stream[r.taken + n..])
  {
    var rest := stream[r.start..];
    assert rest[..HEADER_LENGTH] == stream[r.start..r.taken];
    assert rest[HEADER_LENGTH..HEADER_LENGTH + n] == stream[r.taken..r.taken + n];
    assert rest[HEADER_LENGTH + n..] == stream[r.taken + n..];
  }

  lemma FollowsFromStart(t: Track, stream: string)
    requires forall n :: ReadingBody(n) !in t.s.pending
    ensures Follows(t, AT_START, stream)
  {
    assert stream[0..] == stream && [] + ReadAll(stream) == ReadAll(stream);
  }

  lemma ReleaseIssuesNothing(s: SessionState)
    ensures OnRelease(s).0.pending == s.pending
  {
  }

  lemma WriteIssuesNoRead(s: SessionState, m: Frame, error: bool, op: Op)
    requires (!error ==> s.writeMsgs != []) && IsRead(op) && op in OnWritten(s, m, error).0.pending
    ensures op in s.pending
  {
    ReleaseIssuesNothing(Complete(s, Writing(m)));
  }

  lemma HandlerReads(t: Track, e: Event, op: Op)
    requires !e.Accept? && !e.Send? && (e.Written? && !e.error ==> t.s.writeMsgs != [])
    requires (e.HeaderRead? || e.BodyRead? ==> e.error) && Completes(e) in t.s.pending
    requires IsRead(op) && op in Handle(t, e).0.s.pending
    ensures op in t.s.pending || (op == ReadingHeader && Connecting in t.s.pending)
  {
    if e.Written? {
      WriteIssuesNoRead(t.s, e.m, e.error, op);
    } else {
      ReleaseIssuesNothing(Complete(t.s, Completes(e)));
    }
  }

  lemma ReaderIsLive(t: Track, op: Op)
    requires Fit(t) && IsRead(op) && op in t.s.pending
    ensures !t.s.deleted
  {
  }

  // A step that completes no read of the session brings it no other read than a first header.
  lemma OtherReads(w: World, e: Event, i: nat, op: Op)
    requires AllFit(w) && i < |w.sessions| && !Completed(w, e, i) && IsRead(op)
    requires i < |Step(w, e).sessions| && op in Step(w, e).sessions[i].s.pending
    ensures op in w.sessions[i].s.pending || (op == ReadingHeader && Connecting in w.sessions[i].s.pending)
  {
    hide Handle, Good;
    if Possible(w, e) {
      if w.sessions[e.id].s.deleted {
        DestroyedHandlerRuns(w, e);
      } else {
        FitHandlerRuns(w, e);
        if e.id == i { HandlerReads(w.sessions[i], e, op); }
      }
    }
  }

  lemma UnreadStep(w: World, e: Event, i: nat, r: Reader, stream: string)
    requires AllFit(w) && i < |w.sessions| && !Completed(w, e, i) && Follows(w.sessions[i], r, stream)
    ensures i < |Step(w, e).sessions| && Follows(Step(w, e).sessions[i], r, stream)
  {
    SessionsGrow(w, e);
    var t, u := w.sessions[i], Step(w, e).sessions[i];
    forall op | IsRead(op) && op in u.s.pending
      ensures op in t.s.pending || (op == ReadingHeader && Connecting in t.s.pending)
    {
      OtherReads(w, e, i, op);
    }
  }

  // The reads in flight after a header: none, or the body it announces.
  lemma AfterHeader(t: Track, e: Event, op: Op)
    requires Good(t) && e.HeaderRead? && !e.error && ReadingHeader in t.s.pending
    requires IsRead(op) && op in Handle(t, e).0.s.pending
    ensures e.header.accepted && op == ReadingBody(e.header.bodyLength)
  {
    ReadInFlight(t, ReadingHeader);
    ReleaseIssuesNothing(Complete(t.s, ReadingHeader));
  }

  lemma HeaderStep(w: World, e: Event, i: nat, r: Reader, stream: string)
    requires AllFit(w) && Completed(w, e, i) && e.HeaderRead? && Follows(w.sessions[i], r, stream)
    requires ComesFrom(r, e, stream)
    ensures |Step(w, e).sessions| == |w.sessions| && Follows(Step(w, e).sessions[i], AfterRead(r, e, stream), stream)
  {
    hide Good, ReadAll, DecodedHeader, Handle;
    ReaderIsLive(w.sessions[i], Completes(e));
    FitHandlerRuns(w, e);
    forall op | IsRead(op) && op in Step(w, e).sessions[i].s.pending
      ensures e.header.accepted && op == ReadingBody(e.header.bodyLength)
    {
      AfterHeader(w.sessions[i], e, op);
    }
  }

  // After a body the read is of the next header, if any.
  lemma AfterBody(t: Track, e: Event, op: Op)
    requires Good(t) && e.BodyRead? && !e.error && ReadingBody(e.length) in t.s.pending
    requires IsRead(op) && op in Handle(t, e).0.s.pending
    ensures op == ReadingHeader
  {
    ReadInFlight(t, ReadingBody(e.length));
  }

  lemma BodyStep(w: World, e: Event, i: nat, r: Reader, stream: string)
    requires AllFit(w) && Completed(w, e, i) && e.BodyRead? && Follows(w.sessions[i], r, stream)
    requires ComesFrom(r, e, stream)
    ensures |Step(w, e).sessions| == |w.sessions| && Follows(Step(w, e).sessions[i], AfterRead(r, e, stream), stream)
  {
    hide Good, ReadAll, DecodedHeader, Handle;
    ReaderIsLive(w.sessions[i], Completes(e));
    FitHandlerRuns(w, e);
    forall op | IsRead(op) && op in Step(w, e).sessions[i].s.pending ensures op == ReadingHeader {
      AfterBody(w.sessions[i], e, op);
    }
    BodyIsNext(r, stream, e.length);
    Associate(r.frames, [Frame(r.port, Piece(stream, r.taken, e.length))], ReadAll(stream[r.taken + e.length..]));
  }

  lemma FollowsStep(w: World, e: Event, i: nat, r: Reader, stream: string)
    requires AllFit(w) && i < |w.sessions| && Follows(w.sessions[i], r, stream)
    requires Completed(w, e, i) ==> ComesFrom(r, e, stream)
    ensures i < |Step(w, e).sessions|
    ensures Follows(Step(w, e).sessions[i], if Completed(w, e, i) then AfterRead(r, e, stream) else r, stream)
  {
    hide Follows, AllFit, Step, AfterRead, ComesFrom;
    if !Completed(w, e, i) { UnreadStep(w, e, i, r, stream); }
    else if e.HeaderRead? { HeaderStep(w, e, i, r, stream); }
    else { BodyStep(w, e, i, r, stream); }
  }

  lemma BringsFront(events: seq<Event>, i: nat, stream: string)
    requires events != [] && Brings(events, i, stream)
    ensures var (front, e) := (events[..|events| - 1], events[|events| - 1]);
            && Brings(front, i, stream)
            && (Completed(Run(front), e, i) ==> ComesFrom(Reads(front, i, stream), e, stream))
  {
    var front := events[..|events| - 1];
    forall n | 0 <= n < |front| && Completed(Run(front[..n]), front[n], i)
      ensures ComesFrom(Reads(front[..n], i, stream), front[n], stream)
    {
      assert front[..n] == events[..n];
    }
  }

  // A session yet to come has read nothing.
  lemma {:induction false} NothingReadYet(events: seq<Event>, i: nat, stream: string)
    requires i >= |Run(events).sessions|
    ensures Reads(events, i, stream) == AT_START
  {
    if events != [] {
      SessionsGrow(Run(events[..|events| - 1]), events[|events| - 1]);
      NothingReadYet(events[..|events| - 1], i, stream);
    }
  }

  lemma NewSession(w: World, e: Event, stream: string)
    requires |w.sessions| < |Step(w, e).sessions|
    ensures |Step(w, e).sessions| == |w.sessions| + 1 && Follows(Step(w, e).sessions[|w.sessions|], AT_START, stream)
    ensures !Completed(w, e, |w.sessions|)
  {
    FollowsFromStart(Step(w, e).sessions[|w.sessions|], stream);
  }

  // The frames a session passes on are those that reading its stream yields, in order, and what is
  // left of the stream yields the others; and while it reads a body, that is the body announced.
  lemma {:induction false} SessionFollowsStream(events: seq<Event>, i: nat, stream: string)
    requires Brings(events, i, stream) && i < |Run(events).sessions|
    ensures Follows(Run(events).sessions[i], Reads(events, i, stream), stream)
  {
    hide Follows, AllFit, Brings, Step, Completed, ComesFrom, AfterRead;
    var (front, e) := (events[..|events| - 1], events[|events| - 1]);
    var w, r := Run(front), Reads(front, i, stream);
    RunIsFit(front);
    if i < |w.sessions| {
      BringsFront(events, i, stream);
      SessionFollowsStream(front, i, stream);
      FollowsStep(w, e, i, r, stream);
    } else {
      NewSession(w, e, stream);
      NothingReadYet(front, i, stream);
    }
  }

  // From peer to peer: a session whose stream is cut anywhere from what another session sends, the
  // messages delivered to it one after the other, passes on a prefix of them, unchanged and in order.
  lemma PeerToPeer(here: seq<Event>, i: nat, there: seq<Event>, j: nat, n: nat)
    requires i < |Run(here).sessions| && j < |Run(there).sessions|
    requires var sent := Run(there).sessions[j].delivered;
             && (forall f :: f in sent ==> Sendable(f))
             && n <= |EncodedAll(sent)|
             && Brings(here, i, EncodedAll(sent)[..n])
    ensures var sent := Run(there).sessions[j].delivered; Reads(here, i, EncodedAll(sent)[..n]).frames <= sent
  {
    SessionFollowsStream(here, i, EncodedAll(Run(there).sessions[j].delivered)[..n]);
    PartialStream(Run(there).sessions[j].delivered, n);
  }

  // And all of them, when it took the whole stream and waits for a header.
  lemma AllArrives(events: seq<Event>, i: nat, fs: seq<Frame>)
    requires i < |Run(events).sessions| && forall f :: f in fs ==> Sendable(f)
    requires Brings(events, i, EncodedAll(fs)) && Reads(events, i, EncodedAll(fs)).taken == |EncodedAll(fs)|
    requires ReadingHeader in Run(events).sessions[i].s.pending
    ensures Reads(events, i, EncodedAll(fs)).frames == fs
  {
    var r := Reads(events, i, EncodedAll(fs));
    SessionFollowsStream(events, i, EncodedAll(fs));
    hide Run, Reads, Brings;
    assert EncodedAll(fs) == EncodedAll(fs) + [] && EncodedAll(fs)[r.taken..] == [];
    StreamRoundTrip(fs, []);
    assert r.frames + [] == r.frames && fs + [] == fs;
  }
}
