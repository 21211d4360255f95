// The handlers that drive the searches of one node.
module Node {
  import opened Wrappers
  import opened Contacts
  import S = Search
  import R = SearchRuns
  import T = RoutingTable
  import P = ProximityCache
  import opened Lookup

  class Node {
    const id: string
    const contactList: P.Bucket
    var mapSearch: map<Token, S.Search>
    var outbox: seq<Sent>

    ghost predicate Valid()
      reads this, contactList, mapSearch.Values
    {
      && contactList.Valid()
      && (forall t, u :: t in mapSearch && u in mapSearch && t != u ==> mapSearch[t] != mapSearch[u])
      && (forall t :: t in mapSearch ==> R.ListSorted(mapSearch[t].Model()))
    }

    // The searches by token, as values.
    ghost function Searches(): Live
      reads this`mapSearch, mapSearch.Values
    {
      map t | t in mapSearch :: mapSearch[t].Model()
    }

    constructor (id: string)
      ensures Searches() == map[]
      ensures Valid() && this.id == id && mapSearch == map[] && outbox == []
      ensures fresh(contactList) && contactList.entries == []
    {
      this.id := id;
      contactList := new P.Bucket(id);
      mapSearch := map[];
      outbox := [];
    }

    // False stands for the exception "No route to key".
    method SendMessage(m: Message) returns (routed: bool)
      requires contactList.Valid()
      modifies this`outbox
      ensures contactList.Valid() && outbox == old(outbox) + Route(id, contactList.entries, m)
      ensures !routed <==> m.to != id && T.FindIndex(contactList.entries, m.to) == |contactList.entries|
    {
      if m.to == id { return true; }
      var n := contactList.FindKey(m.to);
      if n == |contactList.entries| { return false; }
      outbox := outbox + [Sent(m, contactList.entries[n].contact.ep)];
      return true;
    }

    // One pass of the asking loop: mark the closest idle node and send it the query.
    method AskOne(search: S.Search, t: Token, k: string)
      requires contactList.Valid() && R.Unasked(search.Model()) > 0
      modifies this`outbox, search`mapNodeBusy
      ensures contactList.Valid()
      ensures var s := old(search.Model());
              search.Model() == MarkFirst(s)
                  && outbox == old(outbox) + Route(id, contactList.entries, FirstQuery(s, k, t))
    {
      var key := search.GetNodeKey();
      var _ := SendMessage(Query(search.searchType, key.value, k, t));
    }

    // The loop that asks at most so many nodes of the search.
    method AskNodes(search: S.Search, t: Token, k: string, most: nat)
      requires contactList.Valid()
      modifies this`outbox, search`mapNodeBusy
      ensures contactList.Valid()
      ensures var s := old(search.Model());
              search.Model() == Marked(s, most)
                  && outbox == old(outbox) + AskLog(id, contactList.entries, s, most, k, t)
    {
      // The loop needs that the table stays valid, not what that means.
      hide P.Sound;
      ghost var s, table := search.Model(), contactList.entries;
      ghost var last, whole := Marked(s, most), outbox + AskLog(id, table, s, most, k, t);
      var i := 0;
      var full := search.IsNodeFull();
      while i < most && !full
        invariant contactList.Valid() && contactList.entries == table
        invariant i <= most && search.Model() == s && (full <==> R.Unasked(s) == 0)
        invariant last == Marked(s, most - i) && whole == outbox + AskLog(id, table, s, most - i, k, t)
        decreases most - i
      {
        FirstAsked(outbox, id, table, s, most - i, k, t);
        AskOne(search, t, k);
        s := MarkFirst(s);
        i := i + 1;
        full := search.IsNodeFull();
      }
    }

    // The STORE drain: one pass sends the value to the closest listed node not served yet.
    method DrainStores(search: S.Search, t: Token, k: string)
      requires contactList.Valid() && R.KeysDistinct(search.shortList)
      modifies this`outbox, search`mapValueBusy
      ensures outbox == old(outbox) + StoreLog(id, contactList.entries, old(R.Stores(search.Model())), k, t)
    {
      ghost var table, keys := contactList.entries, R.Stores(search.Model());
      ghost var whole := outbox + StoreLog(id, table, keys, k, t);
      var full := search.IsValueFull();
      while !full
        invariant keys == R.Stores(search.Model()) && (full <==> keys == []) && contactList.entries == table
        invariant whole == outbox + StoreLog(id, table, keys, k, t)
        decreases |keys|
      {
        R.IdleAfterFirst(search.shortList, search.mapValueBusy.Keys);
        Associate(outbox, Route(id, table, Store(keys[0], k, t)), StoreLog(id, table, keys[1..], k, t));
        var key := search.GetValueKey();
        var _ := SendMessage(Store(key.value, k, t));
        keys := keys[1..];
        full := search.IsValueFull();
      }
    }

    // The effect e of a reply, seen from the state before: the search that had the token, the
    // token map, and the messages sent so far.
    ghost predicate Shows(e: Effect, t: Token, search: S.Search, live: map<Token, S.Search>, sent: seq<Sent>)
      reads this, contactList, search
    {
      && outbox == sent + RouteAll(id, contactList.entries, e.messages)
      && (match e.next
          case None => mapSearch == live - {t}
          case Some(s) => mapSearch == live && search.Model() == s)
    }

    method ReplyIterativeNodeSearch(lc: seq<Contact>, t: Token, k: string)
      requires Valid() && t in mapSearch && mapSearch[t].searchType == S.NodeSearch
      modifies this`mapSearch, this`outbox, mapSearch[t]
      ensures Valid()
      ensures Shows(ReplyEffect(old(mapSearch[t].Model()), lc, k, t), t, old(mapSearch[t]), old(mapSearch), old(outbox))
    {
      var search := mapSearch[t];
      var ends := UpdateSearch(search, lc);
      if ends {
        mapSearch := mapSearch - {t};
      } else {
        Ask(search, t, k);
      }
    }

    method ReplyIterativeValueSearch(lc: seq<Contact>, t: Token, k: string)
      requires Valid() && t in mapSearch && mapSearch[t].searchType == S.ValueSearch
      modifies this`outbox, mapSearch[t]
      ensures Valid()
      ensures Shows(ReplyEffect(old(mapSearch[t].Model()), lc, k, t), t, old(mapSearch[t]), old(mapSearch), old(outbox))
    {
      var search := mapSearch[t];
      var _ := UpdateSearch(search, lc);
      Ask(search, t, k);
    }

    method ReplyIterativeStoreSearch(lc: seq<Contact>, t: Token, k: string)
      requires Valid() && t in mapSearch && mapSearch[t].searchType == S.StoreSearch
      modifies this`mapSearch, this`outbox, mapSearch[t]
      ensures Valid()
      ensures Shows(ReplyEffect(old(mapSearch[t].Model()), lc, k, t), t, old(mapSearch[t]), old(mapSearch), old(outbox))
    {
      var search := mapSearch[t];
      var ends := UpdateSearch(search, lc);
      if ends {
        Drain(search, t, k);
        mapSearch := mapSearch - {t};
      } else {
        Ask(search, t, k);
      }
    }

    method ReplyIterative(lc: seq<Contact>, t: Token, k: string)
      requires Valid() && t in mapSearch
      modifies this`mapSearch, this`outbox, mapSearch[t]
      ensures Valid()
      ensures Shows(ReplyEffect(old(mapSearch[t].Model()), lc, k, t), t, old(mapSearch[t]), old(mapSearch), old(outbox))
    {
      match mapSearch[t].searchType
      case NodeSearch => ReplyIterativeNodeSearch(lc, t, k);
      case ValueSearch => ReplyIterativeValueSearch(lc, t, k);
      case StoreSearch => ReplyIterativeStoreSearch(lc, t, k);
    }

    // No two tokens share a search.
    lemma Apart(t: Token)
      requires Valid() && t in mapSearch
      ensures forall u :: u in mapSearch && u != t ==> mapSearch[u] != mapSearch[t]
    {
    }

    // What the searches are when only that of one token changed.
    lemma OneChanged(before: Live, live: map<Token, S.Search>, t: Token, next: Option<S.State>)
      requires t in live && before.Keys == live.Keys
      requires forall u :: u in live && u != t ==> live[u].Model() == before[u]
      requires if next.Some? then mapSearch == live && live[t].Model() == next.value else mapSearch == live - {t}
      ensures Searches() == Put(before, t, next)
    {
    }

    lemma OneBegun(before: Live, live: map<Token, S.Search>, t: Token, search: S.Search)
      requires before.Keys == live.Keys && mapSearch == live[t := search]
      requires forall u :: u in live ==> live[u].Model() == before[u]
      ensures Searches() == Put(before, t, Some(search.Model()))
    {
    }

    // The same seen on the searches of all tokens: only that of this token changes.
    method Feed(lc: seq<Contact>, t: Token, k: string)
      requires Valid() && t in mapSearch
      modifies this`mapSearch, this`outbox, mapSearch[t]
      ensures Valid()
      ensures Shows(ReplyEffect(old(mapSearch[t].Model()), lc, k, t), t, old(mapSearch[t]), old(mapSearch), old(outbox))
      ensures Searches() == Put(old(Searches()), t, Next(old(mapSearch[t].Model()), lc))
    {
      ghost var before, live, search := Searches(), mapSearch, mapSearch[t];
      ghost var s := search.Model();
      NextIsEffect(s, lc, k, t);
      Apart(t);
      hide Valid, ReplyEffect, Next, RouteAll, Put;
      ReplyIterative(lc, t, k);
      OneChanged(before, live, t, Next(s, lc));
    }

    // The three steps above, each against the specification of the runs.
    method UpdateSearch(search: S.Search, lc: seq<Contact>) returns (ends: bool)
      requires R.ListSorted(search.Model())
      modifies search`shortList
      ensures search.Model() == S.Updated(old(search.Model()), lc) && R.ListSorted(search.Model())
      ensures ends <==> S.UpdateEnds(old(search.Model()), lc)
    {
      R.UpdatedSorted(search.Model(), lc);
      ends := search.UpdateList(lc);
    }

    method Ask(search: S.Search, t: Token, k: string)
      requires contactList.Valid() && R.ListSorted(search.Model())
      modifies this`outbox, search`mapNodeBusy
      ensures var s := old(search.Model());
              search.Model() == R.Asked(s, ALPHA) && R.ListSorted(search.Model())
              && outbox == old(outbox) + RouteAll(id, contactList.entries, QueryAll(s.kind, R.Queries(s, ALPHA), k, t))
    {
      ghost var s := search.Model();
      R.SortedKeysDistinct(s.destination, s.shortList);
      MarkedIsAsked(s, ALPHA);
      AskLogIsQueries(id, contactList.entries, s, ALPHA, k, t);
      AskNodes(search, t, k, ALPHA);
    }

    method Drain(search: S.Search, t: Token, k: string)
      requires contactList.Valid() && R.ListSorted(search.Model())
      modifies this`outbox, search`mapValueBusy
      ensures outbox == old(outbox) + RouteAll(id, contactList.entries, StoreAll(R.Stores(old(search.Model())), k, t))
    {
      R.SortedKeysDistinct(search.destination, search.shortList);
      StoreLogIsStores(id, contactList.entries, R.Stores(search.Model()), k, t);
      DrainStores(search, t, k);
    }

    // A reply for a token without search is ignored. Otherwise every contact in it is pinged
    // first, and the search goes on with this node's own key as the query.
    method HandleReplyFindNode(lc: seq<Contact>, t: Token, toId: string)
      requires Valid()
      modifies this`mapSearch, this`outbox, if t in mapSearch then {mapSearch[t]} else {}
      ensures Valid()
      ensures var input := Offer(t, lc, toId);
              && Searches() == Took(id, old(Searches()), input)
              && outbox == old(outbox) + RouteAll(id, contactList.entries, Says(id, old(Searches()), input))
      ensures t !in old(mapSearch) ==> mapSearch == old(mapSearch) && outbox == old(outbox)
      ensures t in old(mapSearch) ==>
                Shows(ReplyEffect(old(mapSearch[t].Model()), lc, toId, t), t, old(mapSearch[t]), old(mapSearch),
                      old(outbox) + RouteAll(id, contactList.entries, PingAll(lc)))
    {
      hide P.Sound, R.ListSorted, ReplyEffect, Next, RouteAll, Put;
      ghost var table := contactList.entries;
      if t !in mapSearch { RouteNothing(id, table); return; }
      ghost var e := ReplyEffect(mapSearch[t].Model(), lc, toId, t);
      PingContacts(lc);
      Feed(lc, t, toId);
      RouteConcat(id, table, PingAll(lc), e.messages);
      Associate(old(outbox), RouteAll(id, table, PingAll(lc)), RouteAll(id, table, e.messages));
    }

    method PingContacts(lc: seq<Contact>)
      requires contactList.Valid()
      modifies this`outbox
      ensures outbox == old(outbox) + RouteAll(id, contactList.entries, PingAll(lc))
    {
      ghost var table, whole := contactList.entries, outbox + RouteAll(id, contactList.entries, PingAll(lc));
      assert lc[0..] == lc;
      for i := 0 to |lc|
        invariant contactList.entries == table && whole == outbox + RouteAll(id, table, PingAll(lc[i..]))
      {
        FirstPing(id, table, lc[i..]);
        assert lc[i..][1..] == lc[i + 1..];
        Associate(outbox, Route(id, table, Ping(lc[i].key)), RouteAll(id, table, PingAll(lc[i + 1..])));
        var _ := SendMessage(Ping(lc[i].key));
      }
    }

    // A value reply ends a VALUE search. Only those have a callback: for another kind calling it
    // raises an exception, and the search stays.
    method HandleReplyFindValue(t: Token) returns (outcome: ValueOutcome)
      requires Valid()
      modifies this`mapSearch
      ensures Valid()
      ensures outcome == Ignored <==> t !in old(mapSearch)
      ensures outcome == Called <==> t in old(mapSearch) && old(mapSearch[t].searchType) == S.ValueSearch
      ensures mapSearch == if outcome == Called then old(mapSearch) - {t} else old(mapSearch)
      ensures Searches() == Took(id, old(Searches()), Answer(t))
    {
      hide P.Sound, R.ListSorted;
      if t !in mapSearch { return Ignored; }
      if mapSearch[t].searchType != S.ValueSearch { return Raised; }
      mapSearch := mapSearch - {t};
      return Called;
    }

    // Feed the search with the table, through the proximity cache.
    method StartNodeLookup(t: Token, k: string)
      requires Valid() && t in mapSearch
      modifies this`mapSearch, this`outbox, contactList, mapSearch[t]
      ensures Valid() && contactList.Model() == P.BuildState(old(contactList.Model()), k)
      ensures var listing := P.Listing(contactList.mapProximity, contactList.entries);
              Shows(ReplyEffect(old(mapSearch[t].Model()), listing, k, t),
                  t, old(mapSearch[t]), old(mapSearch), old(outbox))
              && Searches() == Put(old(Searches()), t, Next(old(mapSearch[t].Model()), listing))
    {
      ghost var s, searches := mapSearch[t].Model(), Searches();
      var tempList := ReadTable(k);
      assert mapSearch[t].Model() == s && Searches() == searches;
      hide P.Sound, P.BuildState, P.Listing, ReplyEffect, Next, Put;
      Feed(tempList, t, k);
    }

    method ReadTable(k: string) returns (tempList: seq<Contact>)
      requires Valid()
      modifies contactList
      ensures Valid() && contactList.Model() == P.BuildState(old(contactList.Model()), k)
      ensures tempList == P.Listing(contactList.mapProximity, contactList.entries)
    {
      var mapProximity := contactList.BuildProximity(k);
      tempList := CurrentContacts(mapProximity);
    }

    method CurrentContacts(mapProximity: P.Proximity) returns (tempList: seq<Contact>)
      requires contactList.Valid()
      ensures tempList == P.Listing(mapProximity, contactList.entries)
    {
      tempList := [];
      for i := 0 to |mapProximity|
        invariant tempList == P.Listing(mapProximity[..i], contactList.entries)
      {
        assert mapProximity[..i + 1][..i] == mapProximity[..i];
        var n := contactList.FindKey(mapProximity[i].1);
        if n == |contactList.entries| { continue; }
        var ep := contactList.EndpointOf(mapProximity[i].1);
        tempList := tempList + [Contact(mapProximity[i].1, ep.value, None)];
      }
      assert mapProximity[..|mapProximity|] == mapProximity;
    }

    // Start a search of any kind; a search that had the token is replaced.
    method StartSearch(kind: S.SearchType, t: Token, k: string)
      requires Valid()
      modifies this`mapSearch, this`outbox, contactList
      ensures Valid() && contactList.Model() == P.BuildState(old(contactList.Model()), k)
      ensures var listing := P.Listing(contactList.mapProximity, contactList.entries);
              var e := ReplyEffect(S.Fresh(id, k, kind), listing, k, t);
              && outbox == old(outbox) + RouteAll(id, contactList.entries, e.messages)
              && mapSearch - {t} == old(mapSearch) - {t}
              && (e.next == None <==> t !in mapSearch)
              && (t in mapSearch ==> e.next == Some(mapSearch[t].Model()))
      ensures var input := Begin(t, kind, k, P.Listing(contactList.mapProximity, contactList.entries));
              && Searches() == Took(id, old(Searches()), input)
              && outbox == old(outbox) + RouteAll(id, contactList.entries, Says(id, old(Searches()), input))
    {
      ghost var s, searches := S.Fresh(id, k, kind), Searches();
      hide P.Sound, R.ListSorted, P.BuildState, P.Listing, ReplyEffect, RouteAll, Put, Valid;
      InstallSearch(kind, t, k);
      ghost var live := mapSearch;
      StartNodeLookup(t, k);
      assert mapSearch - {t} == live - {t};
      PutTwice(searches, t, Some(s), Next(s, P.Listing(contactList.mapProximity, contactList.entries)));
    }

    lemma FreshSorted(k: string, kind: S.SearchType)
      ensures R.ListSorted(S.Fresh(id, k, kind))
    {
    }

    method InstallSearch(kind: S.SearchType, t: Token, k: string)
      requires Valid()
      modifies this`mapSearch
      ensures Valid() && t in mapSearch && fresh(mapSearch[t]) && mapSearch[t].Model() == S.Fresh(id, k, kind)
      ensures mapSearch - {t} == old(mapSearch) - {t}
      ensures Searches() == Put(old(Searches()), t, Some(S.Fresh(id, k, kind)))
    {
      hide P.Sound, Put, R.ListSorted, S.Fresh;
      FreshSorted(k, kind);
      ghost var before, live := Searches(), mapSearch;
      var search := new S.Search(id, k, kind);
      Replaced(mapSearch, t, search);
      mapSearch := mapSearch[t := search];
      OneBegun(before, live, t, search);
    }

    // Send the whole table back, ALPHA contacts a message.
    method ReplyFindNodeMessages(to: string, t: Token)
      requires contactList.Valid()
      modifies this`outbox
      ensures outbox == old(outbox)
              + RouteAll(id, contactList.entries, ReplyAll(to, t, Chunks(ContactsOf(contactList.entries), ALPHA)))
      ensures old(outbox) <= outbox && AnswersWithTable(outbox[|old(outbox)|..], id, contactList.entries, to, t)
    {
      hide P.Sound, RouteAll, ReplyAll, Chunks, AnswersWithTable;
      ghost var table, all := contactList.entries, ContactsOf(contactList.entries);
      TableIsCarried(id, table, to, t);
      ghost var whole := outbox + ReplyLog(id, table, to, t, [], all);
      ReplyLogIsChunks(id, table, to, t, [], all);
      assert [] + all == all && all[0..] == all;
      var batch: seq<Contact> := [];
      var i := 0;
      while i < |contactList.entries|
        invariant contactList.Valid() && contactList.entries == table && i <= |all|
        invariant whole == outbox + ReplyLog(id, table, to, t, batch, all[i..])
      {
        NextReply(id, table, to, t, batch, all, i);
        batch := batch + [contactList.entries[i].contact];
        i := i + 1;
        if |batch| >= ALPHA || i == |contactList.entries| {
          Associate(outbox, Route(id, table, ReplyFindNode(to, t, batch)), ReplyLog(id, table, to, t, [], all[i..]));
          var sent := SendMessage(ReplyFindNode(to, t, batch));
          if !sent { ReplyLogUnrouted(id, table, to, t, [], all[i..]); return; }
          batch := [];
        }
      }
    }
  }

  // The batching loop, contact by contact.
  function ReplyLog(id: string, table: seq<T.Entry>, to: string, t: Token, batch: seq<Contact>,
      rest: seq<Contact>): seq<Sent>
    decreases |rest|
  {
    if rest == [] then []
    else
      var b := batch + [rest[0]];
      if |b| >= ALPHA || |rest| == 1
      then Route(id, table, ReplyFindNode(to, t, b)) + ReplyLog(id, table, to, t, [], rest[1..])
      else ReplyLog(id, table, to, t, b, rest[1..])
  }

  lemma NextReply(id: string, table: seq<T.Entry>, to: string, t: Token, batch: seq<Contact>, all: seq<Contact>,
      i: nat)
    requires i < |all|
    ensures var b := batch + [all[i]];
            ReplyLog(id, table, to, t, batch, all[i..]) ==
            if |b| >= ALPHA || i + 1 == |all|
            then Route(id, table, ReplyFindNode(to, t, b)) + ReplyLog(id, table, to, t, [], all[i + 1..])
            else ReplyLog(id, table, to, t, b, all[i + 1..])
  {
    assert all[i..][1..] == all[i + 1..];
  }

  lemma {:induction false} ReplyLogIsChunks(id: string, table: seq<T.Entry>, to: string, t: Token,
      batch: seq<Contact>, rest: seq<Contact>)
    requires |batch| < ALPHA && (rest == [] ==> batch == [])
    ensures ReplyLog(id, table, to, t, batch, rest) == RouteAll(id, table, ReplyAll(to, t, Chunks(batch + rest, ALPHA)))
    decreases |rest|
  {
    if rest != [] {
      var b := batch + [rest[0]];
      assert batch + rest == b + rest[1..];
      if |b| >= ALPHA || |rest| == 1 {
        FirstChunk(id, table, to, t, b, rest[1..]);
        ReplyLogIsChunks(id, table, to, t, [], rest[1..]);
        assert [] + rest[1..] == rest[1..];
      } else {
        ReplyLogIsChunks(id, table, to, t, b, rest[1..]);
      }
    }
  }

  lemma {:induction false} ReplyLogUnrouted(id: string, table: seq<T.Entry>, to: string, t: Token,
      batch: seq<Contact>, rest: seq<Contact>)
    requires to != id && T.FindIndex(table, to) == |table|
    ensures ReplyLog(id, table, to, t, batch, rest) == []
    decreases |rest|
  {
    if rest != [] {
      ReplyLogUnrouted(id, table, to, t, [], rest[1..]);
      ReplyLogUnrouted(id, table, to, t, batch + [rest[0]], rest[1..]);
    }
  }

  function StoreLog(id: string, table: seq<T.Entry>, keys: seq<string>, k: string, t: Token): seq<Sent> {
    if keys == [] then [] else Route(id, table, Store(keys[0], k, t)) + StoreLog(id, table, keys[1..], k, t)
  }

  lemma {:induction false} StoreLogIsStores(id: string, table: seq<T.Entry>, keys: seq<string>, k: string, t: Token)
    ensures StoreLog(id, table, keys, k, t) == RouteAll(id, table, StoreAll(keys, k, t))
  {
    if keys != [] {
      StoreLogIsStores(id, table, keys[1..], k, t);
      var first := Store(keys[0], k, t);
      assert StoreAll(keys, k, t) == ([] + [first]) + StoreAll(keys[1..], k, t);
      RouteConcat(id, table, [] + [first], StoreAll(keys[1..], k, t));
      RouteSnoc(id, table, [], first);
    }
  }

  lemma FirstPing(id: string, table: seq<T.Entry>, lc: seq<Contact>)
    requires lc != []
    ensures RouteAll(id, table, PingAll(lc))
            == Route(id, table, Ping(lc[0].key)) + RouteAll(id, table, PingAll(lc[1..]))
  {
    var first := Ping(lc[0].key);
    assert PingAll(lc) == ([] + [first]) + PingAll(lc[1..]);
    RouteConcat(id, table, [] + [first], PingAll(lc[1..]));
    RouteSnoc(id, table, [], first);
  }

  // A batch is sent when it is full or the table is exhausted: it is the next chunk.
  lemma FirstChunk(id: string, table: seq<T.Entry>, to: string, t: Token, batch: seq<Contact>, rest: seq<Contact>)
    requires 0 < |batch| <= ALPHA && (|batch| == ALPHA || rest == [])
    ensures RouteAll(id, table, ReplyAll(to, t, Chunks(batch + rest, ALPHA))) ==
            Route(id, table, ReplyFindNode(to, t, batch)) + RouteAll(id, table, ReplyAll(to, t, Chunks(rest, ALPHA)))
  {
    var first := ReplyFindNode(to, t, batch);
    if rest == [] {
      assert batch + rest == batch;
      assert Chunks(batch + rest, ALPHA) == [batch] + Chunks(rest, ALPHA);
    } else {
      assert (batch + rest)[..ALPHA] == batch && (batch + rest)[ALPHA..] == rest;
    }
    assert ReplyAll(to, t, [batch] + Chunks(rest, ALPHA)) == ([] + [first]) + ReplyAll(to, t, Chunks(rest, ALPHA));
    RouteConcat(id, table, [] + [first], ReplyAll(to, t, Chunks(rest, ALPHA)));
    RouteSnoc(id, table, [], first);
  }

  lemma Replaced<K, V>(m: map<K, V>, k: K, v: V)
    ensures m[k := v] - {k} == m - {k} && k in m[k := v] && m[k := v][k] == v
  {
  }

  function FirstQuery(s: S.State, k: string, t: Token): Message
    requires R.Unasked(s) > 0
  {
    Query(s.kind, S.IdleKeys(s.shortList, s.nodeBusy)[0], k, t)
  }

  function MarkFirst(s: S.State): S.State
    requires R.Unasked(s) > 0
  {
    s.(nodeBusy := s.nodeBusy + {S.IdleKeys(s.shortList, s.nodeBusy)[0]})
  }

  // The asking loop, pass by pass.
  function Marked(s: S.State, n: nat): S.State
    decreases n, s
  {
    if n == 0 || R.Unasked(s) == 0 then s else Marked(MarkFirst(s), n - 1)
  }

  function AskLog(id: string, table: seq<T.Entry>, s: S.State, n: nat, k: string, t: Token): seq<Sent>
    decreases n, s
  {
    if n == 0 || R.Unasked(s) == 0 then []
    else Route(id, table, FirstQuery(s, k, t)) + AskLog(id, table, MarkFirst(s), n - 1, k, t)
  }

  lemma FirstAsked(sent: seq<Sent>, id: string, table: seq<T.Entry>, s: S.State, n: nat, k: string, t: Token)
    requires n > 0 && R.Unasked(s) > 0
    ensures Marked(s, n) == Marked(MarkFirst(s), n - 1)
    ensures sent + AskLog(id, table, s, n, k, t)
            == (sent + Route(id, table, FirstQuery(s, k, t))) + AskLog(id, table, MarkFirst(s), n - 1, k, t)
  {
    Associate(sent, Route(id, table, FirstQuery(s, k, t)), AskLog(id, table, MarkFirst(s), n - 1, k, t));
  }

  // All passes together ask the first n idle nodes.
  lemma {:induction false} MarkedIsAsked(s: S.State, n: nat)
    requires R.KeysDistinct(s.shortList)
    ensures Marked(s, n) == R.Asked(s, n)
    decreases n
  {
    if n == 0 || R.Unasked(s) == 0 {
      assert R.Queries(s, n) == [];
    } else {
      FirstOfQueries(s, n);
      MarkedIsAsked(MarkFirst(s), n - 1);
    }
  }

  lemma FirstOfQueries(s: S.State, n: nat)
    requires n > 0 && R.Unasked(s) > 0 && R.KeysDistinct(s.shortList)
    ensures R.Queries(s, n) == [S.IdleKeys(s.shortList, s.nodeBusy)[0]] + R.Queries(MarkFirst(s), n - 1)
    ensures R.Asked(s, n) == R.Asked(MarkFirst(s), n - 1)
  {
    R.IdleAfterFirst(s.shortList, s.nodeBusy);
    hide S.IdleKeys;
    var keys := S.IdleKeys(s.shortList, s.nodeBusy);
    var q := R.Queries(MarkFirst(s), n - 1);
    assert R.Queries(s, n) == [keys[0]] + q;
    assert R.Members([keys[0]] + q) == {keys[0]} + R.Members(q);
    assert s.nodeBusy + ({keys[0]} + R.Members(q)) == (s.nodeBusy + {keys[0]}) + R.Members(q);
  }

  lemma {:induction false} AskLogIsQueries(id: string, table: seq<T.Entry>, s: S.State, n: nat, k: string, t: Token)
    requires R.KeysDistinct(s.shortList)
    ensures AskLog(id, table, s, n, k, t) == RouteAll(id, table, QueryAll(s.kind, R.Queries(s, n), k, t))
    decreases n
  {
    if n == 0 || R.Unasked(s) == 0 {
      assert R.Queries(s, n) == [] && QueryAll(s.kind, [], k, t) == [];
    } else {
      AskLogIsQueries(id, table, MarkFirst(s), n - 1, k, t);
      AskLogStep(id, table, s, n, k, t);
    }
  }

  lemma AskLogStep(id: string, table: seq<T.Entry>, s: S.State, n: nat, k: string, t: Token)
    requires R.KeysDistinct(s.shortList) && n > 0 && R.Unasked(s) > 0
    requires var m := MarkFirst(s);
             AskLog(id, table, m, n - 1, k, t) == RouteAll(id, table, QueryAll(s.kind, R.Queries(m, n - 1), k, t))
    ensures AskLog(id, table, s, n, k, t) == RouteAll(id, table, QueryAll(s.kind, R.Queries(s, n), k, t))
  {
    hide Route, RouteAll, QueryAll, Query, R.Queries, R.KeysDistinct, S.IdleKeys;
    var m, key := MarkFirst(s), S.IdleKeys(s.shortList, s.nodeBusy)[0];
    FirstOfQueries(s, n);
    FirstQueryRouted(s.kind, key, R.Queries(m, n - 1), k, t, id, table);
  }

  lemma FirstQueryRouted(kind: S.SearchType, key: string, keys: seq<string>, k: string, t: Token, id: string,
      table: seq<T.Entry>)
    ensures RouteAll(id, table, QueryAll(kind, [key] + keys, k, t))
            == Route(id, table, Query(kind, key, k, t)) + RouteAll(id, table, QueryAll(kind, keys, k, t))
  {
    QueriesRouted(kind, [key], keys, k, t, id, table);
    OneRouted(id, table, kind, key, k, t);
  }

  lemma OneRouted(id: string, table: seq<T.Entry>, kind: S.SearchType, key: string, k: string, t: Token)
    ensures RouteAll(id, table, QueryAll(kind, [key], k, t)) == Route(id, table, Query(kind, key, k, t))
  {
    assert QueryAll(kind, [key], k, t) == [] + [Query(kind, key, k, t)];
    RouteSnoc(id, table, [], Query(kind, key, k, t));
  }

  lemma QueriesRouted(kind: S.SearchType, a: seq<string>, b: seq<string>, k: string, t: Token, id: string,
      table: seq<T.Entry>)
    ensures RouteAll(id, table, QueryAll(kind, a + b, k, t)) ==
            RouteAll(id, table, QueryAll(kind, a, k, t)) + RouteAll(id, table, QueryAll(kind, b, k, t))
  {
    hide RouteAll, Route, Query;
    assert QueryAll(kind, a + b, k, t) == QueryAll(kind, a, k, t) + QueryAll(kind, b, k, t);
    RouteConcat(id, table, QueryAll(kind, a, k, t), QueryAll(kind, b, k, t));
  }
}
