// One connection: reference counting over its asynchronous operations, and the table of
// connections by endpoint that all of them share.
module Sessions {
  import opened Wrappers
  import opened Framing

  datatype Address = Address(host: string, port: nat)

  // The endpoint of a session that was neither connected nor started.
  const UNSET: Address := Address("0.0.0.0", 0)

  /** An operation handed to the io service and not completed yet. */
  datatype Op = Connecting | ReadingHeader | ReadingBody(length: nat) | Writing(frame: Frame)

  datatype SessionState = SessionState(
    outgoing: bool,
    ep: Address,
    refCount: int,
    writeMsgs: seq<Frame>,
    pending: multiset<Op>,
    deleted: bool)

  const NEW: SessionState := SessionState(false, UNSET, 1, [], multiset{}, false)

  /** What a handler does to the endpoint table. */
  datatype MapAction = Keep | EraseAt(ep: Address) | RegisterAt(ep: Address)

  function Applied<T>(m: map<Address, T>, a: MapAction, self: T): map<Address, T> {
    match a
    case Keep => m
    case EraseAt(ep) => m - {ep}
    case RegisterAt(ep) => m[ep := self]
  }

  // ------------------------------------------------ specification on values

  function Issue(s: SessionState, op: Op): SessionState {
    s.(refCount := s.refCount + 1, pending := s.pending + multiset{op})
  }

  // Entry of a completion handler: the operation is over and its reference is given back.
  function Complete(s: SessionState, op: Op): SessionState {
    s.(refCount := s.refCount - 1, pending := s.pending - multiset{op})
  }

  function OnRelease(s: SessionState): (SessionState, MapAction) {
    var t := s.(refCount := s.refCount - 1);
    if t.refCount <= 0 then (t.(deleted := true), EraseAt(t.ep)) else (t, Keep)
  }

  function OnStart(s: SessionState, remote: Address): SessionState {
    Issue(if s.outgoing then s else s.(ep := remote), ReadingHeader)
  }

  function OnConnect(s: SessionState, ep: Address): SessionState {
    Issue(s.(outgoing := true, ep := ep), Connecting)
  }

  function OnDeliver(s: SessionState, m: Frame): SessionState {
    var t := s.(writeMsgs := s.writeMsgs + [m]);
    if s.writeMsgs == [] then Issue(t, Writing(m)) else t
  }

  function OnConnected(s: SessionState, error: bool, remote: Address): (SessionState, MapAction) {
    var t := Complete(s, Connecting);
    if error then OnRelease(t) else (OnStart(t, remote), Keep)
  }

  // The header is good: no error, an acceptable length, and for an accepted connection a
  // remote address that can still be asked for.
  predicate HeaderTaken(s: SessionState, error: bool, header: Header, peer: Option<string>) {
    !error && header.accepted && (s.outgoing || peer.Some?)
  }

  function HeaderAddress(s: SessionState, header: Header, peer: Option<string>): Address
    requires s.outgoing || peer.Some?
  {
    if s.outgoing then s.ep else Address(peer.value, header.listenPort)
  }

  function OnHeader(s: SessionState, error: bool, header: Header, peer: Option<string>): (SessionState, MapAction) {
    var t := Complete(s, ReadingHeader);
    if HeaderTaken(s, error, header, peer) then
      var ep := HeaderAddress(s, header, peer);
      (Issue(t.(ep := ep), ReadingBody(header.bodyLength)), RegisterAt(ep))
    else OnRelease(t)
  }

  // A message callback that throws leaves the handler before the next header is asked for.
  function OnBody(s: SessionState, length: nat, error: bool, threw: bool): (SessionState, MapAction) {
    var t := Complete(s, ReadingBody(length));
    if error then OnRelease(t) else (if threw then t else Issue(t, ReadingHeader), Keep)
  }

  function OnWritten(s: SessionState, m: Frame, error: bool): (SessionState, MapAction)
    requires !error ==> s.writeMsgs != []
  {
    var t := Complete(s, Writing(m));
    if error then OnRelease(t)
    else
      var u := t.(writeMsgs := t.writeMsgs[1..]);
      (if u.writeMsgs == [] then u else Issue(u, Writing(u.writeMsgs[0])), Keep)
  }

  // ------------------------------------------------------------ the classes

  class EndpointTable {
    var entries: map<Address, Session>

    constructor ()
      ensures entries == map[]
    {
      entries := map[];
    }
  }

  class Session {
    const table: EndpointTable
    var outgoing: bool
    var ep: Address
    var refCount: int
    var writeMsgs: seq<Frame>
    var pending: multiset<Op>
    var deleted: bool

    function Model(): SessionState
      reads this
    {
      SessionState(outgoing, ep, refCount, writeMsgs, pending, deleted)
    }

    constructor (table: EndpointTable)
      ensures Model() == NEW && this.table == table
    {
      this.table := table;
      outgoing, ep, refCount := false, UNSET, 1;
      writeMsgs, pending, deleted := [], multiset{}, false;
    }

    method Start(remote: Address)
      modifies this
      ensures Model() == OnStart(old(Model()), remote)
    {
      if !outgoing { ep := remote; }
      refCount := refCount + 1;
      pending := pending + multiset{ReadingHeader};
    }

    method Connect(target: Address)
      modifies this
      ensures Model() == OnConnect(old(Model()), target)
    {
      outgoing := true;
      ep := target;
      refCount := refCount + 1;
      pending := pending + multiset{Connecting};
    }

    method Deliver(m: Frame)
      modifies this
      ensures Model() == OnDeliver(old(Model()), m)
    {
      var writeInProgress := writeMsgs != [];
      writeMsgs := writeMsgs + [m];
      if !writeInProgress {
        refCount := refCount + 1;
        pending := pending + multiset{Writing(writeMsgs[0])};
      }
    }

    method Release()
      modifies this, table
      ensures Model() == OnRelease(old(Model())).0
      ensures table.entries == Applied(old(table.entries), OnRelease(old(Model())).1, this)
    {
      refCount := refCount - 1;
      if refCount <= 0 {
        if ep in table.entries { table.entries := table.entries - {ep}; }
        deleted := true;
      }
    }

    method HandleConnect(error: bool, remote: Address)
      requires Connecting in pending
      modifies this, table
      ensures Model() == OnConnected(old(Model()), error, remote).0
      ensures table.entries == Applied(old(table.entries), OnConnected(old(Model()), error, remote).1, this)
    {
      pending := pending - multiset{Connecting};
      refCount := refCount - 1;
      assert Model() == Complete(old(Model()), Connecting);
      if !error { Start(remote); } else { Release(); }
    }

    method HandleReadHeader(error: bool, header: string, peer: Option<string>)
      requires ReadingHeader in pending && |header| == HEADER_LENGTH
      modifies this, table
      ensures Model() == OnHeader(old(Model()), error, DecodedHeader(header), peer).0
      ensures table.entries
              == Applied(old(table.entries), OnHeader(old(Model()), error, DecodedHeader(header), peer).1, this)
    {
      var decoded := DecodedHeader(header);
      HeaderArrived(error, decoded, peer);
    }

    method HeaderArrived(error: bool, header: Header, peer: Option<string>)
      requires ReadingHeader in pending
      modifies this, table
      ensures Model() == OnHeader(old(Model()), error, header, peer).0
      ensures table.entries == Applied(old(table.entries), OnHeader(old(Model()), error, header, peer).1, this)
    {
      pending := pending - multiset{ReadingHeader};
      refCount := refCount - 1;
      assert Model() == Complete(old(Model()), ReadingHeader);
      if !error && header.accepted && (outgoing || peer.Some?) {
        TakeHeader(header, peer);
      } else {
        Release();
      }
    }

    method TakeHeader(header: Header, peer: Option<string>)
      requires outgoing || peer.Some?
      modifies this, table
      ensures ep == HeaderAddress(old(Model()), header, peer)
      ensures Model() == Issue(old(Model()).(ep := ep), ReadingBody(header.bodyLength))
      ensures table.entries == old(table.entries)[ep := this]
    {
      if !outgoing { ep := Address(peer.value, header.listenPort); }
      Register();
      refCount := refCount + 1;
      pending := pending + multiset{ReadingBody(header.bodyLength)};
    }

    // Enter the session in the table, in place of any other session at its endpoint.
    method Register()
      modifies table
      ensures table.entries == old(table.entries)[ep := this]
    {
      if ep !in table.entries {
        table.entries := table.entries[ep := this];
      } else if table.entries[ep] != this {
        table.entries := table.entries - {ep};
        table.entries := table.entries[ep := this];
      }
    }

    method HandleReadBody(length: nat, error: bool, threw: bool)
      requires ReadingBody(length) in pending
      modifies this, table
      ensures Model() == OnBody(old(Model()), length, error, threw).0
      ensures table.entries == Applied(old(table.entries), OnBody(old(Model()), length, error, threw).1, this)
    {
      pending := pending - multiset{ReadingBody(length)};
      refCount := refCount - 1;
      if !error {
        if threw { return; }
        refCount := refCount + 1;
        pending := pending + multiset{ReadingHeader};
      } else {
        Release();
      }
    }

    method HandleWrite(m: Frame, error: bool)
      requires Writing(m) in pending && (!error ==> writeMsgs != [])
      modifies this, table
      ensures Model() == OnWritten(old(Model()), m, error).0
      ensures table.entries == Applied(old(table.entries), OnWritten(old(Model()), m, error).1, this)
    {
      pending := pending - multiset{Writing(m)};
      refCount := refCount - 1;
      assert Model() == Complete(old(Model()), Writing(m));
      if !error { WriteNext(); } else { Release(); }
    }

    // Drop the message written and write the next one, if any.
    method WriteNext()
      requires writeMsgs != []
      modifies this
      ensures var s := old(Model()).(writeMsgs := old(writeMsgs)[1..]);
              Model() == if s.writeMsgs == [] then s else Issue(s, Writing(s.writeMsgs[0]))
    {
      writeMsgs := writeMsgs[1..];
      if writeMsgs != [] {
        refCount := refCount + 1;
        pending := pending + multiset{Writing(writeMsgs[0])};
      }
    }
  }
}
