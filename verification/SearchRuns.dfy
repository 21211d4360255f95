// A search over its whole life: what its replies do, in any number and with any contents.
module SearchRuns {
  import opened Wrappers
  import opened Keys
  import opened Codec
  import opened Contacts
  import opened Closest
  import opened Search

  // ----------------------------------------------------------- one reply

  function FirstKeys(keys: seq<string>, n: nat): seq<string> {
    if |keys| <= n then keys else keys[..n]
  }

  function Members(keys: seq<string>): set<string> {
    set k | k in keys
  }

  // Ask the first n idle nodes of the shortlist.
  function Queries(s: State, n: nat): seq<string> {
    FirstKeys(IdleKeys(s.shortList, s.nodeBusy), n)
  }

  function Asked(s: State, n: nat): State {
    s.(nodeBusy := s.nodeBusy + Members(Queries(s, n)))
  }

  // The nodes a finishing STORE search still has to try to send the value to.
  function Stores(s: State): seq<string> {
    IdleKeys(s.shortList, s.valueBusy)
  }

  ghost predicate ListSorted(s: State) {
    Sorted(DistanceTo(s.destination), s.shortList) && |s.shortList| <= BUCKET_SIZE
  }

  // ------------------------------------------------------- idle contacts

  ghost predicate KeysDistinct(list: seq<Contact>) {
    forall i, j :: 0 <= i < j < |list| ==> list[i].key != list[j].key
  }

  lemma SortedKeysDistinct(target: string, list: seq<Contact>)
    requires Sorted(DistanceTo(target), list)
    ensures KeysDistinct(list)
  {
    var d := DistanceTo(target);
    forall i, j | 0 <= i < j < |list| ensures list[i].key != list[j].key {
      assert d(list[i]) < d(list[j]);
    }
  }

  // The idle keys are the keys of the list outside `busy`, in list order.
  lemma {:induction false} IdleContents(list: seq<Contact>, busy: set<string>)
    ensures forall k :: k in IdleKeys(list, busy) <==> k !in busy && exists c :: c in list && c.key == k
  {
    if list != [] {
      IdleContents(list[1..], busy);
      assert list == [list[0]] + list[1..];
    }
  }

  lemma {:induction false} IdleDistinct(list: seq<Contact>, busy: set<string>)
    requires KeysDistinct(list)
    ensures forall i, j :: 0 <= i < j < |IdleKeys(list, busy)| ==> IdleKeys(list, busy)[i] != IdleKeys(list, busy)[j]
  {
    if list != [] {
      var rest := IdleKeys(list[1..], busy);
      IdleDistinct(list[1..], busy);
      IdleContents(list[1..], busy);
      if list[0].key !in busy {
        forall i | 0 <= i < |rest| ensures rest[i] != list[0].key {
          assert rest[i] in rest;
        }
      }
    }
  }

  lemma {:induction false} IdleUnaffected(list: seq<Contact>, busy: set<string>, k: string)
    requires forall c :: c in list ==> c.key != k
    ensures IdleKeys(list, busy + {k}) == IdleKeys(list, busy)
  {
    if list != [] { IdleUnaffected(list[1..], busy, k); }
  }

  // Marking the first idle node leaves the others idle.
  lemma {:induction false} IdleAfterFirst(list: seq<Contact>, busy: set<string>)
    requires KeysDistinct(list) && IdleKeys(list, busy) != []
    ensures IdleKeys(list, busy + {IdleKeys(list, busy)[0]}) == IdleKeys(list, busy)[1..]
  {
    var k := IdleKeys(list, busy)[0];
    if list[0].key in busy {
      IdleAfterFirst(list[1..], busy);
    } else {
      forall c | c in list[1..] ensures c.key != k {
        var i :| 0 <= i < |list[1..]| && list[1..][i] == c;
        assert list[i + 1] == c;
      }
      IdleUnaffected(list[1..], busy, k);
    }
  }

  lemma {:induction false} IdleAfterSome(list: seq<Contact>, busy: set<string>, n: nat)
    requires KeysDistinct(list) && n <= |IdleKeys(list, busy)|
    ensures IdleKeys(list, busy + Members(IdleKeys(list, busy)[..n])) == IdleKeys(list, busy)[n..]
  {
    var keys := IdleKeys(list, busy);
    if n == 0 {
      assert busy + Members(keys[..0]) == busy;
    } else {
      IdleAfterSome(list, busy, n - 1);
      var more := busy + Members(keys[..n - 1]);
      IdleAfterFirst(list, more);
      assert keys[..n] == keys[..n - 1] + [keys[n - 1]];
      assert more + {keys[n - 1]} == busy + Members(keys[..n]);
      assert keys[n - 1..][1..] == keys[n..];
    }
  }

  ghost predicate Farther(target: string, k: string, keys: seq<string>) {
    forall i :: 0 <= i < |keys| ==> KeyDistance(k, target) < KeyDistance(keys[i], target)
  }

  lemma {:induction false} AllFarther(target: string, k: string, list: seq<Contact>, busy: set<string>)
    requires forall i :: 0 <= i < |list| ==> KeyDistance(k, target) < KeyDistance(list[i].key, target)
    ensures Farther(target, k, IdleKeys(list, busy))
  {
    if list != [] { AllFarther(target, k, list[1..], busy); }
  }

  // Nodes are asked in the order of their distance: each query goes to the closest listed
  // node that was not asked before.
  lemma {:induction false} IdleInDistanceOrder(target: string, list: seq<Contact>, busy: set<string>)
    requires Sorted(DistanceTo(target), list)
    ensures forall i :: 0 <= i < |IdleKeys(list, busy)|
                ==> Farther(target, IdleKeys(list, busy)[i], IdleKeys(list, busy)[i + 1..])
  {
    if list != [] {
      var d, k := DistanceTo(target), list[0].key;
      var rest := IdleKeys(list[1..], busy);
      IdleInDistanceOrder(target, list[1..], busy);
      forall i | 0 <= i < |list[1..]| ensures KeyDistance(k, target) < KeyDistance(list[1..][i].key, target) {
        assert d(list[0]) < d(list[i + 1]);
      }
      AllFarther(target, k, list[1..], busy);
      if k !in busy {
        var keys := [k] + rest;
        forall i | 0 <= i < |keys| ensures Farther(target, keys[i], keys[i + 1..]) {
          if i == 0 {
            assert keys[1..] == rest;
          } else {
            assert keys[i + 1..] == rest[i..] && keys[i] == rest[i - 1];
          }
        }
      }
    }
  }

  lemma UpdatedSorted(s: State, lc: seq<Contact>)
    requires ListSorted(s)
    ensures ListSorted(Updated(s, lc))
  {
    CombinedLast(DistanceTo(s.destination), s.shortList, lc);
  }

  // ------------------------------------------------------------ progress

  const FAR: nat := Pow2(KEY_SIZE)

  function Remoteness(s: State): nat {
    Spread(DistanceTo(s.destination), FAR, s.shortList, BUCKET_SIZE)
  }

  function Unasked(s: State): nat {
    |IdleKeys(s.shortList, s.nodeBusy)|
  }

  // A reply that does not end the search brings the shortlist strictly closer, or leaves it
  // as it is with strictly fewer nodes left to ask.
  lemma ReplyMakesProgress(s: State, lc: seq<Contact>)
    requires ListSorted(s) && !UpdateEnds(s, lc)
    ensures var t := Asked(Updated(s, lc), ALPHA);
            Remoteness(t) < Remoteness(s) || (Remoteness(t) == Remoteness(s) && Unasked(t) < Unasked(s))
  {
    var d, u := DistanceTo(s.destination), Updated(s, lc);
    UpdatedSorted(s, lc);
    if u.shortList != s.shortList {
      MergeImproves(d, FAR, BUCKET_SIZE, s.shortList, lc);
    } else {
      assert u == s;
      SortedKeysDistinct(s.destination, s.shortList);
      var keys := IdleKeys(s.shortList, s.nodeBusy);
      var n := |Queries(s, ALPHA)|;
      assert Queries(s, ALPHA) == keys[..n];
      IdleAfterSome(s.shortList, s.nodeBusy, n);
    }
  }

  // ---------------------------------------------------------------- runs

  /** A search after some replies: how many were taken in, and the keys to which queries and stores
      were attempted. Which of the attempts leave the node is a matter of its routing table. */
  datatype Progress = Progress(state: State, ended: bool, consumed: nat, asked: seq<string>, stored: seq<string>)

  // A VALUE search ignores what `update_list` answers. After the end a reply finds no
  // search under the token.
  function TakeReply(p: Progress, lc: seq<Contact>): Progress {
    if p.ended then p
    else
      var u := Updated(p.state, lc);
      if u.kind != ValueSearch && UpdateEnds(p.state, lc) then
        p.(state := u, ended := true, consumed := p.consumed + 1,
           stored := p.stored + (if u.kind == StoreSearch then Stores(u) else []))
      else
        p.(state := Asked(u, ALPHA), consumed := p.consumed + 1, asked := p.asked + Queries(u, ALPHA))
  }

  function Replies(source: string, target: string, kind: SearchType, batches: seq<seq<Contact>>): Progress {
    if batches == [] then Progress(Fresh(source, target, kind), false, 0, [], [])
    else TakeReply(Replies(source, target, kind, batches[..|batches| - 1]), batches[|batches| - 1])
  }

  ghost predicate NoRepeats(keys: seq<string>) {
    forall i, j :: 0 <= i < j < |keys| ==> keys[i] != keys[j]
  }

  function OfferedKeys(batches: seq<seq<Contact>>): set<string> {
    set c | c in Offered(batches) :: c.key
  }

  // What holds of a search however its replies came.
  ghost predicate Lawful(source: string, target: string, kind: SearchType, batches: seq<seq<Contact>>, p: Progress) {
    && p.consumed <= |batches| && (!p.ended ==> p.consumed == |batches|)
    && p.state.kind == kind && p.state.destination == target && p.state.bucketNb == SharedBits(target, source)
    && p.state.shortList == Shortlist(DistanceTo(target), BUCKET_SIZE, batches[..p.consumed])
    && p.state.nodeBusy == Members(p.asked) && NoRepeats(p.asked)
    && p.state.valueBusy == {}
    && Members(p.asked) <= OfferedKeys(batches[..p.consumed])
    && (if kind == ValueSearch then !p.ended else p.consumed <= |p.asked| + (if p.ended then 1 else 0))
    && |p.asked| <= ALPHA * p.consumed
    && p.stored == if p.ended && kind == StoreSearch then IdleKeys(p.state.shortList, {}) else []
  }

  lemma ListedWereOffered(d: Metric, k: nat, batches: seq<seq<Contact>>)
    ensures Elements(Shortlist(d, k, batches)) <= Offered(batches)
  {
    var s := Shortlist(d, k, batches);
    ShortlistIsTopK(d, k, batches);
    forall c | c in s ensures c in Offered(batches) {
      var i :| 0 <= i < |s| && s[i] == c;
      RecordOffered(d, batches, d(s[i]));
    }
  }

  // Asking idle nodes keeps the log of queries free of repeats.
  lemma AskKeepsLog(s: State, asked: seq<string>, n: nat, offered: set<Contact>)
    requires ListSorted(s) && s.nodeBusy == Members(asked) && NoRepeats(asked)
    requires Elements(s.shortList) <= offered
    ensures NoRepeats(asked + Queries(s, n)) && Members(asked + Queries(s, n)) == Asked(s, n).nodeBusy
    ensures |Queries(s, n)| <= n && (n > 0 && IdleKeys(s.shortList, s.nodeBusy) != [] ==> |Queries(s, n)| > 0)
    ensures forall k :: k in Queries(s, n) ==> k in (set c | c in offered :: c.key)
  {
    var keys, q := IdleKeys(s.shortList, s.nodeBusy), Queries(s, n);
    SortedKeysDistinct(s.destination, s.shortList);
    IdleContents(s.shortList, s.nodeBusy);
    IdleDistinct(s.shortList, s.nodeBusy);
    forall i | 0 <= i < |q| ensures q[i] !in asked {
      assert q[i] == keys[i] && keys[i] in keys;
    }
    forall k | k in q ensures k in keys {}
    forall k | k in q ensures k in (set c | c in offered :: c.key) {
      var c :| c in s.shortList && c.key == k;
      assert c in Elements(s.shortList);
    }
  }

  lemma {:induction false} RunsAreLawful(source: string, target: string, kind: SearchType, batches: seq<seq<Contact>>)
    ensures Lawful(source, target, kind, batches, Replies(source, target, kind, batches))
  {
    if batches == [] {
      assert Members([]) == {};
    } else {
      var n := |batches| - 1;
      var p := Replies(source, target, kind, batches[..n]);
      RunsAreLawful(source, target, kind, batches[..n]);
      TakeReplyLawful(source, target, kind, batches, p);
    }
  }

  lemma TakeReplyLawful(source: string, target: string, kind: SearchType, batches: seq<seq<Contact>>, p: Progress)
    requires batches != [] && Lawful(source, target, kind, batches[..|batches| - 1], p)
    ensures Lawful(source, target, kind, batches, TakeReply(p, batches[|batches| - 1]))
  {
    if p.ended {
      assert batches[..|batches| - 1][..p.consumed] == batches[..p.consumed];
    } else {
      RunningTakesReply(source, target, kind, batches, p);
    }
  }

  lemma RunningTakesReply(source: string, target: string, kind: SearchType, batches: seq<seq<Contact>>, p: Progress)
    requires batches != [] && Lawful(source, target, kind, batches[..|batches| - 1], p) && !p.ended
    ensures Lawful(source, target, kind, batches, TakeReply(p, batches[|batches| - 1]))
  {
    var n := |batches| - 1;
    var d, u := DistanceTo(target), Updated(p.state, batches[n]);
    assert batches[..n + 1] == batches && batches[..n][..n] == batches[..n];
    assert u.shortList == Shortlist(d, BUCKET_SIZE, batches);
    ShortlistIsTopK(d, BUCKET_SIZE, batches);
    ListedWereOffered(d, BUCKET_SIZE, batches);
    assert OfferedKeys(batches[..n]) <= OfferedKeys(batches);
    if kind == ValueSearch || !UpdateEnds(p.state, batches[n]) {
      AskKeepsLog(u, p.asked, ALPHA, Offered(batches));
    }
  }

  // ---------------------------------------------------------- main results

  lemma {:induction false} NoRepeatsSize(keys: seq<string>)
    requires NoRepeats(keys)
    ensures |Members(keys)| == |keys|
  {
    if keys == [] {
      assert Members(keys) == {};
    } else {
      var n := |keys| - 1;
      NoRepeatsSize(keys[..n]);
      assert keys == keys[..n] + [keys[n]];
      assert keys[n] !in keys[..n];
      assert Members(keys) == Members(keys[..n]) + {keys[n]};
    }
  }

  // A NODE or STORE search that is still running has taken in no more replies than it was
  // offered distinct keys.
  lemma SearchEnds(source: string, target: string, kind: SearchType, batches: seq<seq<Contact>>)
    requires kind != ValueSearch && !Replies(source, target, kind, batches).ended
    ensures |batches| <= |OfferedKeys(batches)|
  {
    var p := Replies(source, target, kind, batches);
    RunsAreLawful(source, target, kind, batches);
    assert batches[..|batches|] == batches;
    NoRepeatsSize(p.asked);
    SubsetSize(Members(p.asked), OfferedKeys(batches));
  }

  lemma {:induction false} FewIdle(list: seq<Contact>, busy: set<string>)
    ensures |IdleKeys(list, busy)| <= |list|
  {
    if list != [] { FewIdle(list[1..], busy); }
  }

  lemma {:induction false} EmptySpread(d: Metric, far: nat, k: nat)
    ensures Spread(d, far, [], k) == k * far
  {
    if k > 0 { EmptySpread(d, far, k - 1); }
  }

  // Each reply that does not end a search uses up some of a measure that the search starts with.
  lemma {:induction false} ProgressAddsUp(source: string, target: string, kind: SearchType, batches: seq<seq<Contact>>)
    requires kind != ValueSearch && !Replies(source, target, kind, batches).ended
    ensures var s := Replies(source, target, kind, batches).state;
            |batches| + (BUCKET_SIZE + 1) * Remoteness(s) + Unasked(s) <= (BUCKET_SIZE + 1) * BUCKET_SIZE * FAR
  {
    if batches == [] {
      EmptySpread(DistanceTo(target), FAR, BUCKET_SIZE);
    } else {
      var n := |batches| - 1;
      var p, q := Replies(source, target, kind, batches[..n]), Replies(source, target, kind, batches);
      ProgressAddsUp(source, target, kind, batches[..n]);
      RunsListSorted(source, target, kind, batches[..n]);
      RunsListSorted(source, target, kind, batches);
      FewIdle(q.state.shortList, q.state.nodeBusy);
      ReplyMakesProgress(p.state, batches[n]);
    }
  }

  lemma RunsListSorted(source: string, target: string, kind: SearchType, batches: seq<seq<Contact>>)
    ensures var s := Replies(source, target, kind, batches).state; ListSorted(s) && s.kind == kind
  {
    var p := Replies(source, target, kind, batches);
    RunsAreLawful(source, target, kind, batches);
    ShortlistIsTopK(DistanceTo(target), BUCKET_SIZE, batches[..p.consumed]);
  }

  // So a NODE or STORE search ends, whatever the replies bring, within a number of replies that
  // depends on nothing.
  lemma SearchTerminates(source: string, target: string, kind: SearchType, batches: seq<seq<Contact>>)
    requires kind != ValueSearch && |batches| > (BUCKET_SIZE + 1) * BUCKET_SIZE * FAR
    ensures Replies(source, target, kind, batches).ended
  {
    if !Replies(source, target, kind, batches).ended {
      ProgressAddsUp(source, target, kind, batches);
    }
  }

  // No node is asked twice in the life of a search, one reply asks at most ALPHA nodes, and a
  // VALUE search is never ended by such replies.
  lemma NobodyAskedTwice(source: string, target: string, kind: SearchType, batches: seq<seq<Contact>>)
    ensures NoRepeats(Replies(source, target, kind, batches).asked)
    ensures |Replies(source, target, kind, batches).asked| <= ALPHA * |batches|
    ensures kind == ValueSearch ==> !Replies(source, target, kind, batches).ended
  {
    RunsAreLawful(source, target, kind, batches);
  }

  // The shortlist of a running search is the closest of everything it was offered.
  lemma RunningShortlist(source: string, target: string, kind: SearchType, batches: seq<seq<Contact>>)
    requires !Replies(source, target, kind, batches).ended
    ensures IsTopK(DistanceTo(target), BUCKET_SIZE, batches, Replies(source, target, kind, batches).state.shortList)
  {
    RunsAreLawful(source, target, kind, batches);
    assert batches[..|batches|] == batches;
    ShortlistIsTopK(DistanceTo(target), BUCKET_SIZE, batches);
  }

  function KeysOf(list: seq<Contact>): seq<string> {
    seq(|list|, i requires 0 <= i < |list| => list[i].key)
  }

  lemma {:induction false} AllIdle(list: seq<Contact>)
    ensures IdleKeys(list, {}) == KeysOf(list)
  {
    if list != [] {
      AllIdle(list[1..]);
      assert KeysOf(list) == [list[0].key] + KeysOf(list[1..]);
    }
  }

  // A STORE search that ends has tried once to send the value to each of the closest contacts it
  // was ever offered, nearest first, and tries nothing before or after.
  lemma StoresReachClosest(source: string, target: string, batches: seq<seq<Contact>>)
    ensures var p := Replies(source, target, StoreSearch, batches);
            p.consumed <= |batches| && NoRepeats(p.stored)
            && p.stored
                == if p.ended then KeysOf(Shortlist(DistanceTo(target), BUCKET_SIZE, batches[..p.consumed])) else []
  {
    var p := Replies(source, target, StoreSearch, batches);
    RunsAreLawful(source, target, StoreSearch, batches);
    AllIdle(p.state.shortList);
    ShortlistIsTopK(DistanceTo(target), BUCKET_SIZE, batches[..p.consumed]);
    SortedKeysDistinct(target, p.state.shortList);
  }

  lemma {:induction false} NothingAfterEnd(source: string, target: string, kind: SearchType,
      batches: seq<seq<Contact>>, more: seq<seq<Contact>>)
    requires Replies(source, target, kind, batches).ended
    ensures Replies(source, target, kind, batches + more) == Replies(source, target, kind, batches)
  {
    if more == [] {
      assert batches + more == batches;
    } else {
      var n := |more| - 1;
      NothingAfterEnd(source, target, kind, batches, more[..n]);
      assert (batches + more)[..|batches + more| - 1] == batches + more[..n];
    }
  }

  // ------------------------------------------------- why a search stops

  // The positions of the contacts that share exactly `bits` leading bits with the target.
  function Sharing(list: seq<Contact>, target: string, bits: nat): set<nat> {
    set i: nat | i < |list| && SharedBits(list[i].key, target) == bits
  }

  // The count of a shortlist is the number of those positions.
  lemma {:induction false} CountSharingExactly(list: seq<Contact>, target: string, bits: nat)
    ensures CountSharing(list, target, bits) == |Sharing(list, target, bits)|
  {
    hide SharedBits, Sharing;
    SharingGrows(list, target, bits);
    if list != [] { CountSharingExactly(list[..|list| - 1], target, bits); }
  }

  lemma SharingGrows(list: seq<Contact>, target: string, bits: nat)
    ensures list == [] ==> Sharing(list, target, bits) == {}
    ensures list != [] ==>
              var n := |list| - 1;
              && n !in Sharing(list[..n], target, bits)
              && Sharing(list, target, bits)
                 == Sharing(list[..n], target, bits) + (if SharedBits(list[n].key, target) == bits then {n} else {})
  {
    hide SharedBits;
  }

  lemma {:induction false} CountAll(list: seq<Contact>, target: string, bits: nat)
    ensures CountSharing(list, target, bits) == |list| <==> forall c :: c in list ==> SharedBits(c.key, target) == bits
  {
    if list != [] {
      var n := |list| - 1;
      CountAll(list[..n], target, bits);
      assert list == list[..n] + [list[n]];
    }
  }

  // When the bucket count ends a search, every listed contact shares exactly as many leading
  // bits with the target as the searching node does, and no contact ever offered shares more.
  lemma FullBucketMeaning(target: string, bits: nat, batches: seq<seq<Contact>>)
    requires CountSharing(Shortlist(DistanceTo(target), BUCKET_SIZE, batches), target, bits) >= BUCKET_SIZE
    ensures forall c :: c in Shortlist(DistanceTo(target), BUCKET_SIZE, batches) ==> SharedBits(c.key, target) == bits
    ensures forall c :: c in Offered(batches) ==> SharedBits(c.key, target) <= bits
  {
    var d, s := DistanceTo(target), Shortlist(DistanceTo(target), BUCKET_SIZE, batches);
    ShortlistIsTopK(d, BUCKET_SIZE, batches);
    CountAll(s, target, bits);
    forall c | c in Offered(batches) ensures SharedBits(c.key, target) <= bits {
      RecordOffered(d, batches, d(c));
      NotCloserThanAll(target, bits, s, c);
    }
  }

  lemma NotCloserThanAll(target: string, bits: nat, s: seq<Contact>, c: Contact)
    requires |s| == BUCKET_SIZE && forall e :: e in s ==> SharedBits(e.key, target) == bits
    requires Listed(DistanceTo(target), s, DistanceTo(target)(c))
            || Beyond(DistanceTo(target), BUCKET_SIZE, s, DistanceTo(target)(c))
    ensures SharedBits(c.key, target) <= bits
  {
    var d := DistanceTo(target);
    var i :| 0 <= i < |s| && d(s[i]) <= d(c) by {
      if !Listed(d, s, d(c)) { assert d(s[0]) < d(c); }
    }
    assert s[i] in s;
    if SharedBits(c.key, target) > SharedBits(s[i].key, target) {
      MoreSharedIsCloser(target, c.key, s[i].key);
    }
  }

  // A nonempty batch leaves the shortlist as it is exactly when each of its contacts is at a
  // listed distance or farther than a full list.
  lemma NothingCloser(d: Metric, k: nat, s: seq<Contact>, lc: seq<Contact>)
    requires Sorted(d, s) && |s| <= k && lc != []
    ensures Merge(d, k, s, lc) == s <==> forall c :: c in lc ==> Listed(d, s, d(c)) || Beyond(d, k, s, d(c))
  {
    var two := [s] + [lc];
    SelfTopK(d, k, s);
    MergeKeepsTopK(d, k, [s], s, lc);
    if forall c :: c in lc ==> Listed(d, s, d(c)) || Beyond(d, k, s, d(c)) {
      TwoBatches(d, k, s, lc);
      TopKUnique(d, k, two, two, Merge(d, k, s, lc), s);
    }
    if Merge(d, k, s, lc) == s {
      forall c | c in lc ensures Listed(d, s, d(c)) || Beyond(d, k, s, d(c)) {
        assert two[..1] == [s] && Last(d, lc, d(c)).Some?;
        assert Record(d, two, d(c)).Some?;
      }
    }
  }

  lemma SelfTopK(d: Metric, k: nat, s: seq<Contact>)
    requires Sorted(d, s) && |s| <= k
    ensures IsTopK(d, k, [s], s)
  {
    assert [s][..0] == [];
    forall x ensures Record(d, [s], x) == Last(d, s, x) && (Last(d, s, x).Some? ==> Listed(d, s, x)) {
      UnlistedNotLast(d, s, x);
      assert Record(d, [], x) == None;
    }
    forall i | 0 <= i < |s| ensures Last(d, s, d(s[i])) == Some(s[i]) {
      LastOfSorted(d, s, s[i]);
    }
  }

  lemma TwoBatches(d: Metric, k: nat, s: seq<Contact>, lc: seq<Contact>)
    requires Sorted(d, s) && IsTopK(d, k, [s], s)
    requires forall c :: c in lc ==> Listed(d, s, d(c)) || Beyond(d, k, s, d(c))
    ensures IsTopK(d, k, [s] + [lc], s)
  {
    var two := [s] + [lc];
    assert two[..1] == [s];
    forall x | Record(d, two, x).Some? ensures Listed(d, s, x) || Beyond(d, k, s, x) {
      if Record(d, [s], x).None? { assert Last(d, lc, x).value in lc; }
    }
  }

  // What ends a NODE or STORE search: a reply that brings only contacts that are listed or too far,
  // five listed contacts that all share exactly the searching node's own prefix, or nobody left to ask.
  ghost predicate Stops(s: State, lc: seq<Contact>, asked: set<string>) {
    var d, short := DistanceTo(s.destination), Updated(s, lc).shortList;
    || (lc != [] && s.shortList != []
        && forall c :: c in lc ==> Listed(d, s.shortList, d(c)) || Beyond(d, BUCKET_SIZE, s.shortList, d(c)))
    || (|short| == BUCKET_SIZE && forall c :: c in short ==> SharedBits(c.key, s.destination) == s.bucketNb)
    || (forall c :: c in short ==> c.key in asked)
  }

  lemma WhenASearchStops(s: State, lc: seq<Contact>)
    requires ListSorted(s)
    ensures UpdateEnds(s, lc) <==> Stops(s, lc, s.nodeBusy)
  {
    var u := Updated(s, lc);
    UpdatedSorted(s, lc);
    NobodyIdle(u.shortList, u.nodeBusy);
    CountAll(u.shortList, u.destination, u.bucketNb);
    UpdatedKeeps(s, lc);
    hide Updated, IdleKeys, CountSharing, SharedBits, Listed, Beyond;
    if lc != [] { NothingChanges(s, lc); }
  }

  lemma UpdatedKeeps(s: State, lc: seq<Contact>)
    ensures Updated(s, lc) == s.(shortList := Updated(s, lc).shortList)
  {
  }

  lemma NobodyIdle(list: seq<Contact>, busy: set<string>)
    ensures IdleKeys(list, busy) == [] <==> forall c :: c in list ==> c.key in busy
  {
    IdleContents(list, busy);
    if IdleKeys(list, busy) != [] { assert IdleKeys(list, busy)[0] in IdleKeys(list, busy); }
  }

  lemma NothingChanges(s: State, lc: seq<Contact>)
    requires ListSorted(s) && lc != []
    ensures var d := DistanceTo(s.destination);
            Updated(s, lc) == s
            <==> forall c :: c in lc ==> Listed(d, s.shortList, d(c)) || Beyond(d, BUCKET_SIZE, s.shortList, d(c))
  {
    NothingCloser(DistanceTo(s.destination), BUCKET_SIZE, s.shortList, lc);
  }

  // ------------------------------------------------ what one more reply does

  // q asks the n closest listed nodes that were not asked yet, nearest first; or all of them when
  // there are no more than n.
  ghost predicate AsksClosest(list: seq<Contact>, asked: set<string>, target: string, n: nat, q: seq<string>) {
    && |q| <= n
    && (forall i, j :: 0 <= i < j < |q| ==> KeyDistance(q[i], target) < KeyDistance(q[j], target))
    && (forall k :: k in q ==> k !in asked && exists c :: c in list && c.key == k)
    && (forall c :: c in list && c.key !in asked && c.key !in q
          ==> |q| == n && forall k :: k in q ==> KeyDistance(k, target) < KeyDistance(c.key, target))
  }

  lemma IdleInOrder(s: State, i: nat, j: nat)
    requires ListSorted(s) && i < j < |IdleKeys(s.shortList, s.nodeBusy)|
    ensures var keys := IdleKeys(s.shortList, s.nodeBusy);
            KeyDistance(keys[i], s.destination) < KeyDistance(keys[j], s.destination)
  {
    IdleInDistanceOrder(s.destination, s.shortList, s.nodeBusy);
    hide IdleKeys, KeyDistance;
    var keys := IdleKeys(s.shortList, s.nodeBusy);
    assert keys[i + 1..][j - i - 1] == keys[j];
  }

  lemma QueriesAreClosest(s: State, n: nat)
    requires ListSorted(s)
    ensures AsksClosest(s.shortList, s.nodeBusy, s.destination, n, Queries(s, n))
  {
    var keys, q := IdleKeys(s.shortList, s.nodeBusy), Queries(s, n);
    assert |q| <= n && |q| <= |keys| && (|q| < n ==> |q| == |keys|) && forall i :: 0 <= i < |q| ==> q[i] == keys[i];
    IdleContents(s.shortList, s.nodeBusy);
    forall i, j | 0 <= i < j < |keys|
      ensures KeyDistance(keys[i], s.destination) < KeyDistance(keys[j], s.destination)
    {
      IdleInOrder(s, i, j);
    }
    FirstAreClosest(s, keys, q, n);
  }

  lemma FirstAreClosest(s: State, keys: seq<string>, q: seq<string>, n: nat)
    requires |q| <= n && |q| <= |keys| && (|q| < n ==> |q| == |keys|) && forall i :: 0 <= i < |q| ==> q[i] == keys[i]
    requires forall k :: k in keys <==> k !in s.nodeBusy && exists c :: c in s.shortList && c.key == k
    requires forall i, j :: 0 <= i < j < |keys|
                 ==> KeyDistance(keys[i], s.destination) < KeyDistance(keys[j], s.destination)
    ensures AsksClosest(s.shortList, s.nodeBusy, s.destination, n, q)
  {
    hide KeyDistance;
    forall k | k in q ensures k in keys {}
    forall c | c in s.shortList && c.key !in s.nodeBusy && c.key !in q
      ensures |q| == n && forall k :: k in q ==> KeyDistance(k, s.destination) < KeyDistance(c.key, s.destination)
    {
      assert c.key in keys;
      var j :| 0 <= j < |keys| && keys[j] == c.key;
      assert forall i :: 0 <= i < |q| ==> q[i] in q;
    }
  }

  // One more reply ends a running search exactly for those reasons; otherwise it adds to the queries
  // the closest nodes of the new shortlist that were not asked, and to the stores nothing.
  lemma OneMoreReply(source: string, target: string, kind: SearchType, batches: seq<seq<Contact>>, lc: seq<Contact>)
    requires !Replies(source, target, kind, batches).ended
    ensures var p, q := Replies(source, target, kind, batches), Replies(source, target, kind, batches + [lc]);
            && (q.ended <==> kind != ValueSearch && Stops(p.state, lc, Members(p.asked)))
            && q.state.shortList == Shortlist(DistanceTo(target), BUCKET_SIZE, batches + [lc])
            && p.asked <= q.asked
            && (if q.ended then q.asked == p.asked
                else AsksClosest(q.state.shortList, Members(p.asked), target, ALPHA, q.asked[|p.asked|..]))
  {
    var p := Replies(source, target, kind, batches);
    var all := batches + [lc];
    assert all[..|batches|] == batches && all[..|all|] == all;
    RunsAreLawful(source, target, kind, batches);
    RunsAreLawful(source, target, kind, all);
    RunsListSorted(source, target, kind, batches);
    WhenASearchStops(p.state, lc);
    UpdatedSorted(p.state, lc);
    QueriesAreClosest(Updated(p.state, lc), ALPHA);
  }
}
