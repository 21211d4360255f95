// A node: its searches by token, its routing table, and the messages it sends.
module Lookup {
  import opened Wrappers
  import opened Contacts
  import C = Closest
  import S = Search
  import R = SearchRuns
  import RoutingTable
  import P = ProximityCache

  type Token = nat

  datatype Message =
    | Ping(to: string)
    | FindNode(to: string, query: string, token: Token)
    | FindValue(to: string, query: string, token: Token)
    | Store(to: string, query: string, token: Token)
    | ReplyFindNode(to: string, token: Token, contacts: seq<Contact>)

  /** A message together with the endpoint it was sent to. */
  datatype Sent = Sent(message: Message, ep: Endpoint)

  /** What became of a REPLY_FIND_VALUE. */
  datatype ValueOutcome = Ignored | Raised | Called

  // ------------------------------------------------------------- routing

  // A message to oneself is dropped; one to a key without contact raises an exception that
  // the caller swallows.
  function Route(id: string, table: seq<RoutingTable.Entry>, m: Message): seq<Sent> {
    var n := RoutingTable.FindIndex(table, m.to);
    if m.to == id || n == |table| then [] else [Sent(m, table[n].contact.ep)]
  }

  function RouteAll(id: string, table: seq<RoutingTable.Entry>, ms: seq<Message>): seq<Sent> {
    if ms == [] then []
    else RouteAll(id, table, ms[..|ms| - 1]) + Route(id, table, ms[|ms| - 1])
  }

  lemma RouteSnoc(id: string, table: seq<RoutingTable.Entry>, ms: seq<Message>, m: Message)
    ensures RouteAll(id, table, ms + [m]) == RouteAll(id, table, ms) + Route(id, table, m)
  {
    assert (ms + [m])[..|ms|] == ms;
  }

  lemma RouteNothing(id: string, table: seq<RoutingTable.Entry>)
    ensures RouteAll(id, table, []) == []
  {
  }

  lemma {:induction false} RouteConcat(id: string, table: seq<RoutingTable.Entry>, a: seq<Message>, b: seq<Message>)
    ensures RouteAll(id, table, a + b) == RouteAll(id, table, a) + RouteAll(id, table, b)
  {
    if b == [] {
      assert a + b == a;
    } else {
      var n := |b| - 1;
      RouteConcat(id, table, a, b[..n]);
      assert (a + b)[..|a + b| - 1] == a + b[..n];
      Associate(RouteAll(id, table, a), RouteAll(id, table, b[..n]), Route(id, table, b[n]));
    }
  }

  // The messages that leave the node: those to a key of the table other than its own.
  predicate Leaves(id: string, table: seq<RoutingTable.Entry>, s: Sent) {
    var n := RoutingTable.FindIndex(table, s.message.to);
    s.message.to != id && n < |table| && s.ep == table[n].contact.ep
  }

  lemma {:induction false} WhatLeaves(id: string, table: seq<RoutingTable.Entry>, ms: seq<Message>, s: Sent)
    ensures s in RouteAll(id, table, ms) <==> s.message in ms && Leaves(id, table, s)
  {
    if ms != [] {
      WhatLeaves(id, table, ms[..|ms| - 1], s);
      assert ms == ms[..|ms| - 1] + [ms[|ms| - 1]];
    }
  }

  // Different messages leave at most once each.
  lemma {:induction false} LeavesOnce(id: string, table: seq<RoutingTable.Entry>, ms: seq<Message>)
    requires forall i, j :: 0 <= i < j < |ms| ==> ms[i] != ms[j]
    ensures forall i, j :: 0 <= i < j < |RouteAll(id, table, ms)|
                ==> RouteAll(id, table, ms)[i] != RouteAll(id, table, ms)[j]
  {
    if ms != [] {
      var n := |ms| - 1;
      var front := RouteAll(id, table, ms[..n]);
      LeavesOnce(id, table, ms[..n]);
      forall i | 0 <= i < |front| ensures front[i].message != ms[n] {
        WhatLeaves(id, table, ms[..n], front[i]);
      }
    }
  }

  // --------------------------------------------------- effect of a reply

  function Query(kind: S.SearchType, to: string, k: string, t: Token): Message {
    if kind == S.ValueSearch then FindValue(to, k, t) else FindNode(to, k, t)
  }

  function QueryAll(kind: S.SearchType, tos: seq<string>, k: string, t: Token): seq<Message> {
    seq(|tos|, i requires 0 <= i < |tos| => Query(kind, tos[i], k, t))
  }

  function StoreAll(tos: seq<string>, k: string, t: Token): seq<Message> {
    seq(|tos|, i requires 0 <= i < |tos| => Store(tos[i], k, t))
  }

  function PingAll(cs: seq<Contact>): seq<Message> {
    seq(|cs|, i requires 0 <= i < |cs| => Ping(cs[i].key))
  }

  /** `None`: the search is gone from the token map. */
  datatype Effect = Effect(next: Option<S.State>, messages: seq<Message>)

  predicate Ends(s: S.State, lc: seq<Contact>) {
    s.kind != S.ValueSearch && S.UpdateEnds(s, lc)
  }

  function ReplyEffect(s: S.State, lc: seq<Contact>, k: string, t: Token): Effect {
    var u := S.Updated(s, lc);
    if Ends(s, lc) then Effect(None, if s.kind == S.StoreSearch then StoreAll(R.Stores(u), k, t) else [])
    else Effect(Some(R.Asked(u, ALPHA)), QueryAll(s.kind, R.Queries(u, ALPHA), k, t))
  }

  // ------------------------------------------------- all searches of a node

  type Live = map<Token, S.State>

  /** What reaches the searches of a node: one begins and is fed its listing, a reply addressed to
      k brings contacts, or a reply brings a value. */
  datatype Input =
    | Begin(t: Token, kind: S.SearchType, k: string, listing: seq<Contact>)
    | Offer(t: Token, lc: seq<Contact>, k: string)
    | Answer(t: Token)

  function Put(live: Live, t: Token, s: Option<S.State>): Live {
    if s.Some? then live[t := s.value] else live - {t}
  }

  // The query key and the token only matter for the messages.
  function Next(s: S.State, lc: seq<Contact>): Option<S.State> {
    ReplyEffect(s, lc, "", 0).next
  }

  function Took(id: string, live: Live, input: Input): Live {
    match input
    case Begin(t, kind, k, listing) => Put(live, t, Next(S.Fresh(id, k, kind), listing))
    case Offer(t, lc, _) => if t in live then Put(live, t, Next(live[t], lc)) else live
    case Answer(t) => if t in live && live[t].kind == S.ValueSearch then live - {t} else live
  }

  lemma NextIsEffect(s: S.State, lc: seq<Contact>, k: string, t: Token)
    ensures Next(s, lc) == ReplyEffect(s, lc, k, t).next
  {
  }

  lemma PutTwice(live: Live, t: Token, s: Option<S.State>, next: Option<S.State>)
    ensures Put(Put(live, t, s), t, next) == Put(live, t, next)
  {
  }

  function TookAll(id: string, inputs: seq<Input>): Live {
    if inputs == [] then map[] else Took(id, TookAll(id, inputs[..|inputs| - 1]), inputs[|inputs| - 1])
  }

  /** The last search begun under a token, and the batches addressed to it since. */
  datatype Asking = Asking(kind: S.SearchType, k: string, batches: seq<seq<Contact>>)

  function Addressed(a: Option<Asking>, input: Input): Option<Asking> {
    match input
    case Begin(_, kind, k, listing) => Some(Asking(kind, k, [listing]))
    case Offer(_, lc, _) => if a.Some? then Some(a.value.(batches := a.value.batches + [lc])) else None
    case Answer(_) => if a.Some? && a.value.kind == S.ValueSearch then None else a
  }

  // `None` before any search has the token, and after a value ended one.
  function Since(inputs: seq<Input>, t: Token): Option<Asking> {
    if inputs == [] then None
    else
      var a, input := Since(inputs[..|inputs| - 1], t), inputs[|inputs| - 1];
      if input.t == t then Addressed(a, input) else a
  }

  // The state of the search that a token's own batches alone would make; `None` once it ended.
  function Alone(id: string, a: Option<Asking>): Option<S.State> {
    if a.None? then None
    else
      var p := R.Replies(id, a.value.k, a.value.kind, a.value.batches);
      if p.ended then None else Some(p.state)
  }

  function Get(live: Live, t: Token): Option<S.State> {
    if t in live then Some(live[t]) else None
  }

  // Over any interleaving the search of each token is the one that its own batches alone would make.
  lemma {:induction false} TokensAreSeparate(id: string, inputs: seq<Input>, t: Token)
    ensures Get(TookAll(id, inputs), t) == Alone(id, Since(inputs, t))
  {
    if inputs != [] {
      var front, input := inputs[..|inputs| - 1], inputs[|inputs| - 1];
      TokensAreSeparate(id, front, t);
      if input.t == t {
        OwnInput(id, TookAll(id, front), Since(front, t), input);
      } else {
        OtherInput(id, TookAll(id, front), input, t);
      }
    }
  }

  lemma OtherInput(id: string, live: Live, input: Input, t: Token)
    requires input.t != t
    ensures Get(Took(id, live, input), t) == Get(live, t)
  {
  }

  lemma OwnInput(id: string, live: Live, a: Option<Asking>, input: Input)
    requires Get(live, input.t) == Alone(id, a)
    ensures Get(Took(id, live, input), input.t) == Alone(id, Addressed(a, input))
  {
    match input
    case Begin(_, kind, k, listing) =>
      AloneTakes(id, Asking(kind, k, []), listing);
      assert [] + [listing] == [listing];
    case Offer(_, lc, _) =>
      if a.Some? { AloneTakes(id, a.value, lc); }
    case Answer(_) =>
      if a.Some? { R.RunsListSorted(id, a.value.k, a.value.kind, a.value.batches); }
  }

  lemma AloneTakes(id: string, a: Asking, lc: seq<Contact>)
    ensures var s := Alone(id, Some(a));
            Alone(id, Some(a.(batches := a.batches + [lc]))) == if s.None? then None else Next(s.value, lc)
    ensures a.batches == [] ==> Alone(id, Some(a)) == Some(S.Fresh(id, a.k, a.kind))
  {
    assert (a.batches + [lc])[..|a.batches|] == a.batches;
  }

  // A query attempted leaves the node exactly when its key is another's and in the table: FIND_VALUE
  // for a VALUE search, FIND_NODE for the others.
  lemma QueriesThatLeave(id: string, table: seq<RoutingTable.Entry>, kind: S.SearchType, tos: seq<string>,
      k: string, t: Token, s: Sent)
    ensures s in RouteAll(id, table, QueryAll(kind, tos, k, t))
            <==> && s.message.to in tos && Leaves(id, table, s)
                 && s.message == if kind.ValueSearch? then FindValue(s.message.to, k, t)
                                 else FindNode(s.message.to, k, t)
  {
    WhatLeaves(id, table, QueryAll(kind, tos, k, t), s);
    if s.message.to in tos && s.message == Query(kind, s.message.to, k, t) {
      var i :| 0 <= i < |tos| && tos[i] == s.message.to;
      assert QueryAll(kind, tos, k, t)[i] == s.message;
    }
  }

  // So does a STORE, and each leaves once.
  lemma StoresThatLeave(id: string, table: seq<RoutingTable.Entry>, tos: seq<string>, k: string, t: Token, s: Sent)
    requires R.NoRepeats(tos)
    ensures var sent := RouteAll(id, table, StoreAll(tos, k, t));
            && (s in sent <==> s.message.to in tos && s.message == Store(s.message.to, k, t) && Leaves(id, table, s))
            && forall i, j :: 0 <= i < j < |sent| ==> sent[i] != sent[j]
  {
    WhatLeaves(id, table, StoreAll(tos, k, t), s);
    LeavesOnce(id, table, StoreAll(tos, k, t));
    if s.message.to in tos && s.message == Store(s.message.to, k, t) {
      var i :| 0 <= i < |tos| && tos[i] == s.message.to;
      assert StoreAll(tos, k, t)[i] == s.message;
    }
  }

  // A STORE search that ends sends the value once to each of the closest contacts ever offered
  // that is in the table and is not the node itself, and to nobody else.
  lemma ClosestReceiveValue(source: string, target: string, batches: seq<seq<Contact>>, table: seq<RoutingTable.Entry>,
      k: string, t: Token, s: Sent)
    requires R.Replies(source, target, S.StoreSearch, batches).ended
    ensures var p := R.Replies(source, target, S.StoreSearch, batches);
            var sent := RouteAll(source, table, StoreAll(p.stored, k, t));
            && p.consumed <= |batches|
            && (s in sent
                <==> && s.message.to in R.KeysOf(C.Shortlist(DistanceTo(target), BUCKET_SIZE, batches[..p.consumed]))
                     && s.message == Store(s.message.to, k, t)
                     && Leaves(source, table, s))
            && forall i, j :: 0 <= i < j < |sent| ==> sent[i] != sent[j]
  {
    R.StoresReachClosest(source, target, batches);
    StoresThatLeave(source, table, R.Replies(source, target, S.StoreSearch, batches).stored, k, t, s);
  }

  // The handlers take replies as the runs of `SearchRuns` do.
  lemma EffectIsTakeReply(p: R.Progress, lc: seq<Contact>, k: string, t: Token)
    requires !p.ended
    ensures var e, q := ReplyEffect(p.state, lc, k, t), R.TakeReply(p, lc);
            && (e.next == None <==> q.ended)
            && (e.next.Some? ==> e.next.value == q.state
                                 && q.asked == p.asked + R.Queries(S.Updated(p.state, lc), ALPHA))
            && (p.state.kind == S.StoreSearch && q.ended ==> e.messages == StoreAll(q.stored[|p.stored|..], k, t))
  {
  }

  // ------------------------------------------- what a reply makes a search say

  function Recipients(ms: seq<Message>): seq<string> {
    seq(|ms|, i requires 0 <= i < |ms| => ms[i].to)
  }

  lemma QueriesSaid(kind: S.SearchType, tos: seq<string>, k: string, t: Token)
    ensures Recipients(QueryAll(kind, tos, k, t)) == tos
    ensures forall m :: m in QueryAll(kind, tos, k, t)
                <==> m.to in tos && m == if kind.ValueSearch? then FindValue(m.to, k, t) else FindNode(m.to, k, t)
  {
    var ms := QueryAll(kind, tos, k, t);
    forall to | to in tos ensures Query(kind, to, k, t) in ms {
      var i :| 0 <= i < |tos| && tos[i] == to;
      assert ms[i] == Query(kind, to, k, t);
    }
  }

  lemma StoresSaid(tos: seq<string>, k: string, t: Token)
    ensures Recipients(StoreAll(tos, k, t)) == tos
    ensures forall m :: m in StoreAll(tos, k, t) <==> m.to in tos && m == Store(m.to, k, t)
  {
    var ms := StoreAll(tos, k, t);
    forall to | to in tos ensures Store(to, k, t) in ms {
      var i :| 0 <= i < |tos| && tos[i] == to;
      assert ms[i] == Store(to, k, t);
    }
  }

  // When a reply ends a search.
  lemma ReplyEndsExactly(s: S.State, lc: seq<Contact>, k: string, t: Token)
    requires R.ListSorted(s)
    ensures ReplyEffect(s, lc, k, t).next == None <==> s.kind != S.ValueSearch && R.Stops(s, lc, s.nodeBusy)
  {
    R.WhenASearchStops(s, lc);
  }

  ghost predicate ListsKey(list: seq<Contact>, k: string) {
    exists c :: c in list && c.key == k
  }

  // A reply that ends a search: a NODE search says nothing more; a STORE search sends the value to
  // the listed contacts that were not sent it yet, and says nothing else.
  lemma EndedSearchSays(s: S.State, lc: seq<Contact>, k: string, t: Token)
    requires ReplyEffect(s, lc, k, t).next == None
    ensures var short, said := S.Updated(s, lc).shortList, ReplyEffect(s, lc, k, t).messages;
            && s.kind != S.ValueSearch
            && (s.kind == S.NodeSearch ==> said == [])
            && (s.kind == S.StoreSearch
                ==> forall m :: m in said <==> m == Store(m.to, k, t) && m.to !in s.valueBusy && ListsKey(short, m.to))
  {
    var u := S.Updated(s, lc);
    StoresSaid(R.Stores(u), k, t);
    R.IdleContents(u.shortList, u.valueBusy);
  }

  // A reply that does not end a search: it asks the ALPHA closest contacts of the new shortlist that
  // were not asked yet, nearest first, or all of them when they are fewer; it marks exactly those as
  // asked; a VALUE search asks them for the value, the others for nodes; and it says nothing else.
  lemma RunningSearchAsks(s: S.State, lc: seq<Contact>, k: string, t: Token)
    requires R.ListSorted(s) && ReplyEffect(s, lc, k, t).next.Some?
    ensures var short, e := S.Updated(s, lc).shortList, ReplyEffect(s, lc, k, t);
            && e.next.value == s.(shortList := short, nodeBusy := e.next.value.nodeBusy)
            && R.AsksClosest(short, s.nodeBusy, s.destination, ALPHA, Recipients(e.messages))
            && s.nodeBusy <= e.next.value.nodeBusy
            && forall m :: m in e.messages
                 <==> && m.to in e.next.value.nodeBusy && m.to !in s.nodeBusy
                      && m == if s.kind.ValueSearch? then FindValue(m.to, k, t) else FindNode(m.to, k, t)
  {
    var u := S.Updated(s, lc);
    R.UpdatedSorted(s, lc);
    R.QueriesAreClosest(u, ALPHA);
    QueriesSaid(s.kind, R.Queries(u, ALPHA), k, t);
  }

  // ------------------------------------------- what all searches of a node say

  function Says(id: string, live: Live, input: Input): seq<Message> {
    match input
    case Begin(t, kind, k, listing) => ReplyEffect(S.Fresh(id, k, kind), listing, k, t).messages
    case Offer(t, lc, k) => if t in live then PingAll(lc) + ReplyEffect(live[t], lc, k, t).messages else []
    case Answer(t) => []
  }

  lemma EffectSpeaks(s: S.State, lc: seq<Contact>, k: string, t: Token, m: Message)
    requires m in ReplyEffect(s, lc, k, t).messages
    ensures (m.FindNode? || m.FindValue? || m.Store?) && m.token == t && m.query == k
    ensures m.Store? <==> ReplyEffect(s, lc, k, t).next == None
    ensures m.Store? ==> s.kind == S.StoreSearch
    ensures m.FindValue? <==> s.kind == S.ValueSearch
  {
  }

  // The kind of a live search is the one it was begun with.
  lemma LiveKind(id: string, inputs: seq<Input>, t: Token)
    requires t in TookAll(id, inputs)
    ensures Since(inputs, t).Some? && TookAll(id, inputs)[t].kind == Since(inputs, t).value.kind
  {
    TokensAreSeparate(id, inputs, t);
    var a := Since(inputs, t).value;
    R.RunsListSorted(id, a.k, a.kind, a.batches);
  }

  // Over any interleaving: a STORE leaves only under the token of a search begun as STORE, by the
  // input that ends it; FIND_VALUE only under that of a VALUE search, FIND_NODE only under that of
  // another; and a contact is pinged exactly when a reply to a live search brings it.
  lemma WhoSaysWhat(id: string, inputs: seq<Input>, input: Input, m: Message)
    ensures var live, a := TookAll(id, inputs), Since(inputs + [input], input.t);
            && (m in Says(id, live, input) && !m.Ping? ==>
                  && !input.Answer?
                  && (m.FindNode? || m.FindValue? || m.Store?) && m.token == input.t && m.query == input.k
                  && a.Some?
                  && (m.Store? ==> a.value.kind == S.StoreSearch && input.t !in TookAll(id, inputs + [input]))
                  && (m.FindValue? <==> a.value.kind == S.ValueSearch))
            && (m.Ping? ==> (m in Says(id, live, input)
                  <==> input.Offer? && input.t in live && exists c :: c in input.lc && c.key == m.to))
  {
    var live := TookAll(id, inputs);
    assert (inputs + [input])[..|inputs|] == inputs;
    match input
    case Begin(t, kind, k, listing) =>
      if m in Says(id, live, input) { EffectSpeaks(S.Fresh(id, k, kind), listing, k, t, m); }
    case Offer(t, lc, k) =>
      PingsSaid(lc, m);
      if t in live {
        LiveKind(id, inputs, t);
        if m in ReplyEffect(live[t], lc, k, t).messages { EffectSpeaks(live[t], lc, k, t, m); }
      }
    case Answer(_) =>
  }

  lemma PingsSaid(lc: seq<Contact>, m: Message)
    ensures m in PingAll(lc) <==> m.Ping? && exists c :: c in lc && c.key == m.to
  {
    if c :| c in lc && m == Ping(c.key) {
      var i :| 0 <= i < |lc| && lc[i] == c;
      assert PingAll(lc)[i] == m;
    }
  }

  // The contacts of a reply to a live search are pinged before anything else, once each and in order.
  lemma PingsComeFirst(id: string, live: Live, input: Input)
    requires input.Offer? && input.t in live
    ensures var said, n := Says(id, live, input), |input.lc|;
            && n <= |said|
            && (forall i :: 0 <= i < n ==> said[i] == Ping(input.lc[i].key))
            && forall i :: n <= i < |said| ==> !said[i].Ping?
  {
    hide ReplyEffect, PingAll;
    var ms := ReplyEffect(live[input.t], input.lc, input.k, input.t).messages;
    forall m | m in ms ensures !m.Ping? { EffectSpeaks(live[input.t], input.lc, input.k, input.t, m); }
    PingsInFront(input.lc, ms);
  }

  lemma PingsInFront(lc: seq<Contact>, ms: seq<Message>)
    requires forall m :: m in ms ==> !m.Ping?
    ensures var said, n := PingAll(lc) + ms, |lc|;
            && n <= |said|
            && (forall i :: 0 <= i < n ==> said[i] == Ping(lc[i].key))
            && forall i :: n <= i < |said| ==> !said[i].Ping?
  {
    var said, n := PingAll(lc) + ms, |lc|;
    assert forall i :: n <= i < |said| ==> said[i] == ms[i - n] && ms[i - n] in ms;
  }

  // Everything but the pings.
  function Unpinged(ms: seq<Message>): seq<Message> {
    if ms == [] then [] else (if ms[0].Ping? then [] else [ms[0]]) + Unpinged(ms[1..])
  }

  // What the last search begun under a token has said over any interleaving.
  function Said(id: string, inputs: seq<Input>, t: Token): seq<Message> {
    if inputs == [] then []
    else
      var front, input := inputs[..|inputs| - 1], inputs[|inputs| - 1];
      var now := Unpinged(Says(id, TookAll(id, front), input));
      if input.t != t then Said(id, front, t)
      else if input.Begin? then now
      else Said(id, front, t) + now
  }

  lemma {:induction false} UnpingedReply(lc: seq<Contact>, ms: seq<Message>)
    requires forall m :: m in ms ==> !m.Ping?
    ensures Unpinged(PingAll(lc) + ms) == ms
  {
    if lc == [] {
      assert PingAll(lc) + ms == ms;
      NothingPinged(ms);
    } else {
      assert (PingAll(lc) + ms)[1..] == PingAll(lc[1..]) + ms;
      UnpingedReply(lc[1..], ms);
    }
  }

  lemma {:induction false} NothingPinged(ms: seq<Message>)
    requires forall m :: m in ms ==> !m.Ping?
    ensures Unpinged(ms) == ms
  {
    if ms != [] { NothingPinged(ms[1..]); }
  }

  // The messages of a search so far are its queries and then its stores, to the keys of the run.
  ghost predicate Speaks(said: seq<Message>, kind: S.SearchType, asked: seq<string>, stored: seq<string>, t: Token) {
    && Recipients(said) == asked + stored
    && forall i :: 0 <= i < |said| ==> Spoken(said[i], kind, i < |asked|, t)
  }

  predicate Spoken(m: Message, kind: S.SearchType, query: bool, t: Token) {
    if !query then m.Store? && m.token == t
    else if kind.ValueSearch? then m.FindValue? && m.token == t
    else m.FindNode? && m.token == t
  }

  lemma SpeaksMore(said: seq<Message>, more: seq<Message>, kind: S.SearchType, asked: seq<string>, t: Token,
      tos: seq<string>, query: bool)
    requires Speaks(said, kind, asked, [], t) && Recipients(more) == tos
    requires forall i :: 0 <= i < |more| ==> Spoken(more[i], kind, query, t)
    ensures if query then Speaks(said + more, kind, asked + tos, [], t) else Speaks(said + more, kind, asked, tos, t)
  {
    assert Recipients(said + more) == Recipients(said) + Recipients(more);
    assert |Recipients(said)| == |said| && |Recipients(more)| == |more|;
    assert asked + [] == asked && (asked + tos) + [] == asked + tos;
  }

  lemma SpeaksOn(p: R.Progress, lc: seq<Contact>, k: string, t: Token, said: seq<Message>)
    requires !p.ended && p.stored == [] && Speaks(said, p.state.kind, p.asked, p.stored, t)
    ensures var q := R.TakeReply(p, lc);
            Speaks(said + ReplyEffect(p.state, lc, k, t).messages, p.state.kind, q.asked, q.stored, t)
  {
    var u, q, ms := S.Updated(p.state, lc), R.TakeReply(p, lc), ReplyEffect(p.state, lc, k, t).messages;
    StoresSaid(R.Stores(u), k, t);
    QueriesSaid(p.state.kind, R.Queries(u, ALPHA), k, t);
    assert ms == StoreAll([], k, t) || ms == StoreAll(R.Stores(u), k, t)
           || ms == QueryAll(p.state.kind, R.Queries(u, ALPHA), k, t);
    hide Speaks, R.Queries, R.Stores, S.Updated, S.UpdateEnds;
    SpeaksMore(said, ms, p.state.kind, p.asked, t, Recipients(ms), !q.ended);
    assert [] + Recipients(ms) == Recipients(ms);
  }

  // Over any interleaving the last search begun under a token has sent its queries and stores to
  // exactly the keys, in the order, in which its own batches alone would make it.
  lemma {:induction false} SaidIsRun(id: string, inputs: seq<Input>, t: Token)
    requires Since(inputs, t).Some?
    ensures var a := Since(inputs, t).value;
            var p := R.Replies(id, a.k, a.kind, a.batches);
            Speaks(Said(id, inputs, t), a.kind, p.asked, p.stored, t)
  {
    var front, input := inputs[..|inputs| - 1], inputs[|inputs| - 1];
    var a := Since(inputs, t).value;
    if input.t == t && input.Begin? {
      SaidAtBegin(id, Asking(a.kind, a.k, []), input.listing, t);
      assert [] + [input.listing] == [input.listing];
    } else {
      SaidIsRun(id, front, t);
      if input.t == t && input.Offer? { SaidAtOffer(id, front, input, Since(front, t).value); }
    }
  }

  lemma SaidAtBegin(id: string, a: Asking, listing: seq<Contact>, t: Token)
    requires a.batches == []
    ensures var p, ms := R.Replies(id, a.k, a.kind, a.batches + [listing]),
              ReplyEffect(S.Fresh(id, a.k, a.kind), listing, a.k, t).messages;
            Unpinged(ms) == ms && Speaks(ms, a.kind, p.asked, p.stored, t)
  {
    var p := R.Replies(id, a.k, a.kind, a.batches);
    assert (a.batches + [listing])[..0] == a.batches;
    Unpinging(p.state, listing, a.k, t);
    assert Speaks([], a.kind, [], [], t);
    SpeaksOn(p, listing, a.k, t, []);
    assert [] + ReplyEffect(p.state, listing, a.k, t).messages == ReplyEffect(p.state, listing, a.k, t).messages;
  }

  lemma Unpinging(s: S.State, lc: seq<Contact>, k: string, t: Token)
    ensures var ms := ReplyEffect(s, lc, k, t).messages;
            Unpinged(ms) == ms && forall cs :: Unpinged(PingAll(cs) + ms) == ms
  {
    var ms := ReplyEffect(s, lc, k, t).messages;
    NothingPinged(ms);
    forall cs ensures Unpinged(PingAll(cs) + ms) == ms { UnpingedReply(cs, ms); }
  }

  lemma SaidAtOffer(id: string, front: seq<Input>, input: Input, a: Asking)
    requires input.Offer? && Since(front, input.t) == Some(a)
    requires var p := R.Replies(id, a.k, a.kind, a.batches);
             Speaks(Said(id, front, input.t), a.kind, p.asked, p.stored, input.t)
    ensures var p := R.Replies(id, a.k, a.kind, a.batches + [input.lc]);
            Speaks(Said(id, front, input.t) + Unpinged(Says(id, TookAll(id, front), input)), a.kind, p.asked, p.stored,
                input.t)
  {
    var p, said := R.Replies(id, a.k, a.kind, a.batches), Said(id, front, input.t);
    TokensAreSeparate(id, front, input.t);
    assert (a.batches + [input.lc])[..|a.batches|] == a.batches;
    R.RunsAreLawful(id, a.k, a.kind, a.batches);
    if p.ended {
      assert said + [] == said;
    } else {
      Unpinging(p.state, input.lc, input.k, input.t);
      SpeaksOn(p, input.lc, input.k, input.t, said);
    }
  }

  // ------------------------------------------------- splitting a table

  function Chunks(s: seq<Contact>, n: nat): (r: seq<seq<Contact>>)
    requires n > 0
  {
    if s == [] then [] else if |s| <= n then [s] else [s[..n]] + Chunks(s[n..], n)
  }

  function Flatten(batches: seq<seq<Contact>>): seq<Contact> {
    if batches == [] then [] else batches[0] + Flatten(batches[1..])
  }

  function ReplyAll(to: string, t: Token, batches: seq<seq<Contact>>): seq<Message> {
    seq(|batches|, i requires 0 <= i < |batches| => ReplyFindNode(to, t, batches[i]))
  }

  function ContactsOf(table: seq<RoutingTable.Entry>): seq<Contact> {
    seq(|table|, i requires 0 <= i < |table| => table[i].contact)
  }

  // Splitting loses nothing, duplicates nothing, keeps the order, no message is empty, and all but
  // the last carry n contacts.
  lemma {:induction false} ChunksPartition(s: seq<Contact>, n: nat)
    requires n > 0
    ensures Flatten(Chunks(s, n)) == s
    ensures forall i :: 0 <= i < |Chunks(s, n)| ==> 0 < |Chunks(s, n)[i]| <= n
    ensures forall i :: 0 <= i < |Chunks(s, n)| - 1 ==> |Chunks(s, n)[i]| == n
  {
    if |s| > n {
      ChunksPartition(s[n..], n);
      assert s == s[..n] + s[n..];
    } else if s != [] {
      assert Flatten([s]) == s + Flatten([]);
    }
  }

  // The contacts that messages carry, in order.
  function Carried(sent: seq<Sent>): seq<Contact> {
    if sent == [] then []
    else (if sent[0].message.ReplyFindNode? then sent[0].message.contacts else []) + Carried(sent[1..])
  }

  // A message of a table to one asker: not empty, and full unless it is the last.
  predicate CarriesPart(s: Sent, to: string, t: Token, ep: Endpoint, last: bool) {
    && s.message.ReplyFindNode? && s.message.to == to && s.message.token == t && s.ep == ep
    && 0 < |s.message.contacts| <= ALPHA
    && (!last ==> |s.message.contacts| == ALPHA)
  }

  // All of the table, in order, to an asker that is in it and is not the node itself; otherwise nothing.
  ghost predicate AnswersWithTable(sent: seq<Sent>, id: string, table: seq<RoutingTable.Entry>, to: string, t: Token) {
    var n := RoutingTable.FindIndex(table, to);
    if to == id || n == |table| then sent == []
    else
      && (forall i :: 0 <= i < |sent| ==> CarriesPart(sent[i], to, t, table[n].contact.ep, i == |sent| - 1))
      && |Carried(sent)| == |table|
      && forall i :: 0 <= i < |table| ==> Carried(sent)[i] == table[i].contact
  }

  function SentTo(to: string, t: Token, ep: Endpoint, batches: seq<seq<Contact>>): seq<Sent> {
    seq(|batches|, i requires 0 <= i < |batches| => Sent(ReplyFindNode(to, t, batches[i]), ep))
  }

  lemma {:induction false} CarriedIsFlat(to: string, t: Token, ep: Endpoint, batches: seq<seq<Contact>>)
    ensures Carried(SentTo(to, t, ep, batches)) == Flatten(batches)
  {
    if batches != [] {
      assert SentTo(to, t, ep, batches)[1..] == SentTo(to, t, ep, batches[1..]);
      CarriedIsFlat(to, t, ep, batches[1..]);
    }
  }

  lemma {:induction false} RoutedToOne(id: string, table: seq<RoutingTable.Entry>, to: string, t: Token,
      batches: seq<seq<Contact>>)
    ensures var n := RoutingTable.FindIndex(table, to);
            RouteAll(id, table, ReplyAll(to, t, batches))
            == if to == id || n == |table| then [] else SentTo(to, t, table[n].contact.ep, batches)
  {
    if batches != [] {
      var n := |batches| - 1;
      RoutedToOne(id, table, to, t, batches[..n]);
      RepliesSnoc(to, t, batches);
      RouteSnoc(id, table, ReplyAll(to, t, batches[..n]), ReplyFindNode(to, t, batches[n]));
    }
  }

  lemma RepliesSnoc(to: string, t: Token, batches: seq<seq<Contact>>)
    requires batches != []
    ensures var front, last := batches[..|batches| - 1], ReplyFindNode(to, t, batches[|batches| - 1]);
            && ReplyAll(to, t, batches) == ReplyAll(to, t, front) + [last]
            && forall ep :: SentTo(to, t, ep, batches) == SentTo(to, t, ep, front) + [Sent(last, ep)]
  {
  }

  // What `reply_FIND_NODE` sends to an asker in the table is the table.
  lemma TableIsCarried(id: string, table: seq<RoutingTable.Entry>, to: string, t: Token)
    ensures AnswersWithTable(RouteAll(id, table, ReplyAll(to, t, Chunks(ContactsOf(table), ALPHA))), id, table, to, t)
  {
    var chunks, n := Chunks(ContactsOf(table), ALPHA), RoutingTable.FindIndex(table, to);
    RoutedToOne(id, table, to, t, chunks);
    ChunksPartition(ContactsOf(table), ALPHA);
    if n < |table| { CarriedIsFlat(to, t, table[n].contact.ep, chunks); }
  }

  lemma {:induction false} OfferedMembers(batches: seq<seq<Contact>>)
    ensures forall c :: c in C.Offered(batches) <==> exists b :: b in batches && c in b
  {
    if batches != [] {
      OfferedMembers(batches[..|batches| - 1]);
      assert batches == batches[..|batches| - 1] + [batches[|batches| - 1]];
    }
  }

  lemma {:induction false} FlattenMembers(batches: seq<seq<Contact>>)
    ensures forall c :: c in Flatten(batches) <==> exists b :: b in batches && c in b
  {
    if batches != [] {
      FlattenMembers(batches[1..]);
      assert batches == [batches[0]] + batches[1..];
    }
  }

  // The messages of one `reply_FIND_NODE`, arriving in any order after any earlier batches,
  // lead to the shortlist that the whole table in one message would give.
  lemma AnyOrderSameShortlist(d: C.Metric, k: nat, earlier: seq<seq<Contact>>, table: seq<Contact>, n: nat,
      arrival: seq<seq<Contact>>)
    requires n > 0 && multiset(arrival) == multiset(Chunks(table, n))
    requires forall c, e :: c in table && e in table && d(c) == d(e) ==> c == e
    ensures C.Shortlist(d, k, earlier + arrival) == C.Shortlist(d, k, earlier + [table])
  {
    ArrivalOffersTable(table, n, arrival);
    forall x ensures C.Record(d, earlier + arrival, x) == C.Record(d, earlier + [table], x) {
      C.RecordOffered(d, arrival, x);
      C.RecordOffered(d, [table], x);
      C.RecordConcat(d, earlier, arrival, x);
      C.RecordConcat(d, earlier, [table], x);
    }
    C.SameRecordsSameShortlist(d, k, earlier + arrival, earlier + [table]);
  }

  lemma ArrivalOffersTable(table: seq<Contact>, n: nat, arrival: seq<seq<Contact>>)
    requires n > 0 && multiset(arrival) == multiset(Chunks(table, n))
    ensures C.Offered(arrival) == C.Offered([table]) == Elements(table)
  {
    ChunksPartition(table, n);
    FlattenMembers(Chunks(table, n));
    OfferedMembers(arrival);
    OneBatch(table);
    assert forall b :: b in arrival <==> b in multiset(arrival);
    assert forall b :: b in Chunks(table, n) <==> b in multiset(Chunks(table, n));
  }

  // ---------------------------------------------------- starting a lookup

  function BareTable(table: seq<RoutingTable.Entry>): seq<Contact> {
    seq(|table|, i requires 0 <= i < |table| => Contact(table[i].contact.key, table[i].contact.ep, None))
  }

  lemma BareElements(s: seq<RoutingTable.Entry>)
    ensures Elements(BareTable(s)) == P.TableContacts(s)
  {
    var table := BareTable(s);
    forall c | c in table ensures c in P.TableContacts(s) {
      var i :| 0 <= i < |table| && table[i] == c;
      assert s[i] in s;
    }
    forall e | e in s ensures Contact(e.contact.key, e.contact.ep, None) in table {
      var i :| 0 <= i < |s| && s[i] == e;
      assert table[i] == Contact(e.contact.key, e.contact.ep, None);
    }
  }

  lemma OneBatch(batch: seq<Contact>)
    ensures C.Offered([batch]) == Elements(batch)
  {
    assert [batch][..0] == [];
    assert C.Offered([]) == {};
  }

  lemma BareDistances(s: seq<RoutingTable.Entry>, target: string, all: set<Contact>)
    requires P.DistancesDistinct(s, target) && all == P.TableContacts(s)
    ensures forall c, e :: c in all && e in all && DistanceTo(target)(c) == DistanceTo(target)(e) ==> c == e
  {
  }

  // In every reachable state in which a lookup is given the whole table it starts from the contacts
  // closest to its target, although the cache may be stale and built for another key.
  lemma WholeLookupStartsClosest(local: string, ops: seq<P.Op>, target: string)
    requires P.Steps(local, ops + [P.Build(target)]).Some?
    requires var b := P.Steps(local, ops + [P.Build(target)]).value;
             Elements(P.Listing(b.proximity, b.entries)) == P.TableContacts(b.entries)
    ensures var b := P.Steps(local, ops + [P.Build(target)]).value;
            C.Shortlist(DistanceTo(target), BUCKET_SIZE, [P.Listing(b.proximity, b.entries)]) ==
            C.Shortlist(DistanceTo(target), BUCKET_SIZE, [BareTable(b.entries)])
  {
    var all := ops + [P.Build(target)];
    var b := P.Steps(local, all).value;
    P.ReachableIsSound(local, all);
    P.ReachableIsBuilt(local, all);
    P.EndsBuilt(local, ops, target);
    P.WholeIsDistinct(b, P.BuiltFrom(local, all), target);
    SameShortlist(P.Listing(b.proximity, b.entries), b.entries, target);
  }

  lemma SameShortlist(listing: seq<Contact>, s: seq<RoutingTable.Entry>, target: string)
    requires Elements(listing) == P.TableContacts(s) && P.DistancesDistinct(s, target)
    ensures C.Shortlist(DistanceTo(target), BUCKET_SIZE, [listing])
            == C.Shortlist(DistanceTo(target), BUCKET_SIZE, [BareTable(s)])
  {
    var table := BareTable(s);
    BareElements(s);
    OneBatch(listing);
    OneBatch(table);
    BareDistances(s, target, Elements(table));
    C.ShortlistDependsOnSet(DistanceTo(target), BUCKET_SIZE, [listing], [table]);
  }

  // With canonical keys that is every reachable state.
  lemma FreshLookupStartsClosest(local: string, ops: seq<P.Op>, target: string)
    requires P.Steps(local, ops).Some? && P.AddsCanonical(ops)
    ensures var b := P.BuildState(P.Steps(local, ops).value, target);
            C.Shortlist(DistanceTo(target), BUCKET_SIZE, [P.Listing(b.proximity, b.entries)]) ==
            C.Shortlist(DistanceTo(target), BUCKET_SIZE, [BareTable(b.entries)])
  {
    P.LookupSeesWholeTable(local, ops, target);
    var b := P.BuildState(P.Steps(local, ops).value, target);
    SameShortlist(P.Listing(b.proximity, b.entries), b.entries, target);
  }
}
