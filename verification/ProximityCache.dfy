// The routing table as an object: its operations, its cache, and what every run keeps.
module ProximityCache {
  import opened Wrappers
  import opened Keys
  import opened Codec
  import opened Contacts
  import opened TextMap
  import opened RoutingTable

  // -------------------------------------------------- removal by endpoint

  // The loop of `remove_contact` from position i: after an erasure it restarts at the
  // beginning and then advances, so it goes on at position 1. `None`: the erasure emptied
  // the table and the loop advanced its end iterator, which has no defined behaviour.
  function RemoveLoop(s: seq<Entry>, i: nat, ep: Endpoint): Option<seq<Entry>>
    decreases |s|, |s| - i
  {
    if i >= |s| then Some(s)
    else if s[i].contact.ep == ep then
      if |s| == 1 then None else RemoveLoop(RemoveAt(s, i), 1, ep)
    else RemoveLoop(s, i + 1, ep)
  }

  function NotAt(s: seq<Entry>, ep: Endpoint): (r: seq<Entry>)
    ensures forall e :: e in r <==> e in s && e.contact.ep != ep
  {
    if s == [] then []
    else (if s[0].contact.ep == ep then [] else [s[0]]) + NotAt(s[1..], ep)
  }

  // What `remove_contact` really removes: everything at the endpoint, except that when the
  // first two entries are both there, the second survives.
  function Removed(s: seq<Entry>, ep: Endpoint): Option<seq<Entry>> {
    if |s| == 1 && s[0].contact.ep == ep then None
    else if |s| >= 2 && s[0].contact.ep == ep && s[1].contact.ep == ep then Some([s[1]] + NotAt(s[2..], ep))
    else Some(NotAt(s, ep))
  }

  lemma {:induction false} NotAtConcat(s: seq<Entry>, t: seq<Entry>, ep: Endpoint)
    ensures NotAt(s + t, ep) == NotAt(s, ep) + NotAt(t, ep)
  {
    if s == [] {
      assert s + t == t;
    } else {
      assert (s + t)[1..] == s[1..] + t;
      NotAtConcat(s[1..], t, ep);
    }
  }

  lemma NotAtRemove(s: seq<Entry>, i: nat, ep: Endpoint)
    requires i < |s| && s[i].contact.ep == ep
    ensures NotAt(RemoveAt(s, i), ep) == NotAt(s, ep)
  {
    assert s == s[..i] + ([s[i]] + s[i + 1..]);
    NotAtConcat(s[..i], [s[i]] + s[i + 1..], ep);
    NotAtConcat([s[i]], s[i + 1..], ep);
    NotAtConcat(s[..i], s[i + 1..], ep);
  }

  lemma {:induction false} NothingAt(s: seq<Entry>, ep: Endpoint)
    requires forall i :: 0 <= i < |s| ==> s[i].contact.ep != ep
    ensures NotAt(s, ep) == s
  {
    if s != [] { NothingAt(s[1..], ep); }
  }

  // From position 1 on, the loop keeps the head and clears the rest.
  lemma {:induction false} RemoveLoopTail(s: seq<Entry>, i: nat, ep: Endpoint)
    requires 1 <= i <= |s| && forall j :: 1 <= j < i ==> s[j].contact.ep != ep
    ensures RemoveLoop(s, i, ep) == Some([s[0]] + NotAt(s[1..], ep))
    decreases |s|, |s| - i
  {
    if i == |s| {
      NothingAt(s[1..], ep);
      assert [s[0]] + s[1..] == s;
    } else if s[i].contact.ep == ep {
      var r := RemoveAt(s, i);
      RemoveLoopTail(r, 1, ep);
      assert r[1..] == RemoveAt(s[1..], i - 1);
      NotAtRemove(s[1..], i - 1, ep);
    } else {
      RemoveLoopTail(s, i + 1, ep);
    }
  }

  lemma {:induction false} RemoveLoopStart(s: seq<Entry>, i: nat, ep: Endpoint)
    requires i <= |s| && forall j :: 0 <= j < i ==> s[j].contact.ep != ep
    ensures RemoveLoop(s, i, ep) == Removed(s, ep)
    decreases |s| - i
  {
    if i == |s| {
      NothingAt(s, ep);
    } else if s[i].contact.ep != ep {
      RemoveLoopStart(s, i + 1, ep);
    } else if |s| > 1 {
      var r := RemoveAt(s, i);
      RemoveLoopTail(r, 1, ep);
      if i == 0 {
        assert r == s[1..] && r[1..] == s[2..];
        assert NotAt(s, ep) == NotAt(s[1..], ep);
      } else {
        NotAtRemove(s, i, ep);
        assert r[0] == s[0];
      }
    }
  }

  // Removing an endpoint removes all its contacts if and only if not both of the first two
  // entries are at that endpoint.
  lemma RemovalIsComplete(s: seq<Entry>, ep: Endpoint)
    requires RemoveLoop(s, 0, ep).Some?
    ensures (forall e :: e in RemoveLoop(s, 0, ep).value ==> e.contact.ep != ep)
            <==> !(|s| >= 2 && s[0].contact.ep == ep && s[1].contact.ep == ep)
    ensures forall e :: e in RemoveLoop(s, 0, ep).value ==> e in s
    ensures forall e :: e in s && e.contact.ep != ep ==> e in RemoveLoop(s, 0, ep).value
  {
    RemoveLoopStart(s, 0, ep);
    if |s| >= 2 && s[0].contact.ep == ep && s[1].contact.ep == ep {
      assert s[1] in RemoveLoop(s, 0, ep).value;
      assert s == [s[0], s[1]] + s[2..];
    }
  }

  // The loop leaves defined behaviour exactly for a table of one contact, at the endpoint.
  lemma RemovalDefinedExactly(s: seq<Entry>, ep: Endpoint)
    ensures RemoveLoop(s, 0, ep) == None <==> |s| == 1 && s[0].contact.ep == ep
  {
    RemoveLoopStart(s, 0, ep);
  }

  lemma {:induction false} RemoveLoopKeepsTable(local: string, s: seq<Entry>, i: nat, ep: Endpoint)
    requires Table(local, s) && RemoveLoop(s, i, ep).Some?
    ensures Table(local, RemoveLoop(s, i, ep).value)
    decreases |s|, |s| - i
  {
    if i < |s| {
      if s[i].contact.ep == ep {
        RemoveKeepsTable(local, s, i);
        RemoveLoopKeepsTable(local, RemoveAt(s, i), 1, ep);
      } else {
        RemoveLoopKeepsTable(local, s, i + 1, ep);
      }
    }
  }

  // ------------------------------------------------------------ the cache

  type Proximity = seq<(string, string)>

  function CacheText(target: string, key: string): string {
    BitText(Not(Xor(StringToKey(target), StringToKey(key))))
  }

  function ProximityOf(s: seq<Entry>, target: string): Proximity {
    if s == [] then []
    else
      var k := s[|s| - 1].contact.key;
      TextPut(ProximityOf(s[..|s| - 1], target), CacheText(target, k), k)
  }

  // Some cached key denotes the same point as k.
  ghost predicate Cached(p: Proximity, k: string) {
    exists q :: q in p && StringToKey(q.1) == StringToKey(k)
  }

  ghost predicate Covers(p: Proximity, s: seq<Entry>) {
    forall e :: e in s ==> Cached(p, e.contact.key)
  }

  lemma CacheTextInjective(target: string, a: string, b: string)
    requires CacheText(target, a) == CacheText(target, b)
    ensures StringToKey(a) == StringToKey(b)
  {
    var t, x, y := StringToKey(target), StringToKey(a), StringToKey(b);
    TextInjective(Not(Xor(t, x)), Not(Xor(t, y)));
    forall i | 0 <= i < KEY_SIZE ensures x[i] == y[i] {
      assert Not(Xor(t, x))[i] == Not(Xor(t, y))[i];
    }
  }

  lemma {:induction false} BuiltSound(s: seq<Entry>, target: string)
    ensures forall q :: q in ProximityOf(s, target)
                ==> q.0 == CacheText(target, q.1) && exists e :: e in s && e.contact.key == q.1
  {
    if s != [] {
      var front, last := s[..|s| - 1], s[|s| - 1];
      BuiltSound(front, target);
      TextPutKeeps(ProximityOf(front, target), CacheText(target, last.contact.key), last.contact.key);
      assert last in s;
    }
  }

  lemma {:induction false} BuiltCovers(s: seq<Entry>, target: string)
    ensures forall e :: e in s ==> exists q :: q in ProximityOf(s, target) && q.0 == CacheText(target, e.contact.key)
  {
    if s != [] {
      var front, last := s[..|s| - 1], s[|s| - 1];
      var k := last.contact.key;
      var p := ProximityOf(front, target);
      BuiltCovers(front, target);
      TextPutKeeps(p, CacheText(target, k), k);
      forall e | e in s ensures exists q :: q in ProximityOf(s, target) && q.0 == CacheText(target, e.contact.key) {
        if CacheText(target, e.contact.key) == CacheText(target, k) {
          assert (CacheText(target, k), k) in ProximityOf(s, target);
        } else {
          assert e in front;
        }
      }
    }
  }

  lemma SamePlaceIsCached(p: Proximity, target: string, q: (string, string), key: string)
    requires q in p && CacheText(target, q.1) == CacheText(target, key)
    ensures Cached(p, key)
  {
    CacheTextInjective(target, q.1, key);
  }

  lemma BuildCovers(s: seq<Entry>, target: string)
    ensures Covers(ProximityOf(s, target), s)
  {
    hide CacheText, StringToKey;
    BuiltSound(s, target);
    BuiltCovers(s, target);
    forall e | e in s ensures Cached(ProximityOf(s, target), e.contact.key) {
      var q :| q in ProximityOf(s, target) && q.0 == CacheText(target, e.contact.key);
      SamePlaceIsCached(ProximityOf(s, target), target, q, e.contact.key);
    }
  }

  // What `startNodeLookup` makes of the cache: its keys that are still in the table, with
  // their current endpoints and no time.
  function Listing(p: Proximity, s: seq<Entry>): seq<Contact> {
    if p == [] then []
    else
      var n := FindIndex(s, p[|p| - 1].1);
      Listing(p[..|p| - 1], s) + (if n < |s| then [Bare(s[n].contact)] else [])
  }

  function Bare(c: Contact): Contact {
    Contact(c.key, c.ep, None)
  }

  lemma {:induction false} ListingContents(p: Proximity, s: seq<Entry>)
    ensures forall c :: c in Listing(p, s) ==> exists e :: e in s && c == Bare(e.contact)
    ensures forall q :: q in p && FindIndex(s, q.1) < |s| ==> Bare(s[FindIndex(s, q.1)].contact) in Listing(p, s)
  {
    if p != [] {
      ListingContents(p[..|p| - 1], s);
      var n := FindIndex(s, p[|p| - 1].1);
      if n < |s| { assert s[n] in s; }
    }
  }

  // ------------------------------------------------- the table as an object

  datatype BucketState = BucketState(localKey: string, entries: seq<Entry>, proximity: Proximity, changed: bool)

  function AddState(b: BucketState, k: string, ep: Endpoint, now: nat): BucketState {
    b.(entries := Added(b.localKey, b.entries, k, ep, now),
       changed := b.changed || (k != b.localKey && FindIndex(b.entries, k) == |b.entries|))
  }

  // The key is used only when the table gained a contact since the last call.
  function BuildState(b: BucketState, k: string): BucketState {
    if b.changed then b.(proximity := ProximityOf(b.entries, k), changed := false) else b
  }

  ghost predicate Sound(b: BucketState) {
    Table(b.localKey, b.entries) && (!b.changed ==> Covers(b.proximity, b.entries))
  }

  ghost predicate CanonicalState(b: BucketState) {
    && (forall e :: e in b.entries ==> Canonical(e.contact.key))
    && (forall q :: q in b.proximity ==> Canonical(q.1))
  }

  lemma AddedMembers(local: string, s: seq<Entry>, k: string, ep: Endpoint, now: nat)
    requires Table(local, s)
    ensures forall e :: e in Added(local, s, k, ep, now) ==> e.contact.key == k || e in s
    ensures FindIndex(s, k) < |s|
            ==> forall e :: e in Added(local, s, k, ep, now) ==> exists f :: f in s && f.contact.key == e.contact.key
  {
    var c := SharedBits(local, k);
    var e := Entry(c, Contact(k, ep, Some(now)));
    if k != local && FindIndex(s, k) == |s| {
      EvictMakesRoom(local, s, c);
      InsertMembers(Evicted(s, c), Upper(Evicted(s, c), c), e);
    } else if k != local {
      ReplaceMembers(s, FindIndex(s, k), e);
    }
  }

  lemma InsertMembers(s: seq<Entry>, n: nat, e: Entry)
    requires n <= |s|
    ensures forall f :: f in InsertAt(s, n, e) ==> f == e || f in s
  {
  }

  lemma ReplaceMembers(s: seq<Entry>, n: nat, e: Entry)
    requires n < |s| && s[n].contact.key == e.contact.key
    ensures forall x :: x in s[n := e] ==> x == e || x in s
    ensures forall x :: x in s[n := e] ==> exists f :: f in s && f.contact.key == x.contact.key
  {
    assert s[n] in s;
  }

  lemma AddKeepsSound(b: BucketState, k: string, ep: Endpoint, now: nat)
    requires Sound(b)
    ensures Sound(AddState(b, k, ep, now))
    ensures CanonicalState(b) && Canonical(k) ==> CanonicalState(AddState(b, k, ep, now))
  {
    AddKeepsTable(b.localKey, b.entries, k, ep, now);
    AddedMembers(b.localKey, b.entries, k, ep, now);
  }

  lemma BuildKeepsSound(b: BucketState, k: string)
    requires Sound(b)
    ensures Sound(BuildState(b, k)) && Covers(BuildState(b, k).proximity, b.entries)
    ensures CanonicalState(b) ==> CanonicalState(BuildState(b, k))
  {
    BuildCovers(b.entries, k);
    BuiltSound(b.entries, k);
  }

  // What the table gives a lookup: its contacts with their endpoints and no time.
  ghost function TableContacts(s: seq<Entry>): set<Contact> {
    set e | e in s :: Contact(e.contact.key, e.contact.ep, None)
  }

  // A listed contact has the endpoint that the table has for its key now, and no time; and whatever
  // the cache names and the table holds is listed.
  lemma ListedAsStored(p: Proximity, s: seq<Entry>, c: Contact)
    requires UniqueKeys(s)
    ensures c in Listing(p, s)
            <==> c.time == None && NamedIn(p, c.key)
                 && exists e :: e in s && e.contact.key == c.key && e.contact.ep == c.ep
  {
    ListingContents(p, s);
    if c in Listing(p, s) { ListedKeys(p, s, c); }
    if e :| NamedIn(p, c.key) && c.time == None && e in s && e.contact.key == c.key && e.contact.ep == c.ep {
      var q :| q in p && q.1 == c.key;
      FindIndexUnique(s, e);
      assert c == Bare(e.contact);
    }
  }

  ghost predicate NamedIn(p: Proximity, k: string) {
    exists q :: q in p && q.1 == k
  }

  lemma {:induction false} ListedKeys(p: Proximity, s: seq<Entry>, c: Contact)
    requires c in Listing(p, s)
    ensures NamedIn(p, c.key)
  {
    var n := FindIndex(s, p[|p| - 1].1);
    if n < |s| && c == Bare(s[n].contact) {
      assert p[|p| - 1] in p;
    } else {
      ListedKeys(p[..|p| - 1], s, c);
      var q :| q in p[..|p| - 1] && q.1 == c.key;
      assert q in p;
    }
  }

  // A cache, however stale, looked up again, yields exactly the current contacts with their current
  // endpoints if and only if it holds the very text of the key of each.
  lemma ListingExactly(s: seq<Entry>, p: Proximity)
    requires UniqueKeys(s)
    ensures Elements(Listing(p, s)) == TableContacts(s) <==> forall e :: e in s ==> NamedIn(p, e.contact.key)
  {
    ListingContents(p, s);
    if Elements(Listing(p, s)) == TableContacts(s) {
      forall e | e in s ensures NamedIn(p, e.contact.key) {
        assert Contact(e.contact.key, e.contact.ep, None) in TableContacts(s);
        ListedKeys(p, s, Bare(e.contact));
      }
    }
    if forall e :: e in s ==> NamedIn(p, e.contact.key) {
      forall e | e in s ensures Bare(e.contact) in Listing(p, s) {
        var q :| q in p && q.1 == e.contact.key;
        FindIndexUnique(s, e);
      }
    }
  }

  // No two contacts of the table denote the same point.
  ghost predicate PointsDistinct(s: seq<Entry>) {
    forall e, f :: e in s && f in s && StringToKey(e.contact.key) == StringToKey(f.contact.key) ==> e == f
  }

  lemma {:induction false} ProximitySorted(s: seq<Entry>, target: string)
    ensures TextSorted(ProximityOf(s, target))
  {
    if s != [] {
      var k := s[|s| - 1].contact.key;
      ProximitySorted(s[..|s| - 1], target);
      TextPutSorted(ProximityOf(s[..|s| - 1], target), CacheText(target, k), k);
    }
  }

  // The cache is keyed by complemented distances, so it lists the keys farthest first.
  lemma FarthestFirst(s: seq<Entry>, target: string, i: nat, j: nat)
    requires i < j < |ProximityOf(s, target)|
    ensures KeyDistance(ProximityOf(s, target)[i].1, target) > KeyDistance(ProximityOf(s, target)[j].1, target)
  {
    var p := ProximityOf(s, target);
    ProximitySorted(s, target);
    BuiltSound(s, target);
    assert p[i] in p && p[j] in p;
    CacheTextOrder(target, p[i].1, p[j].1);
  }

  lemma CacheTextOrder(target: string, a: string, b: string)
    ensures TextLess(CacheText(target, a), CacheText(target, b)) <==> KeyDistance(a, target) > KeyDistance(b, target)
  {
    var t, x, y := StringToKey(target), StringToKey(a), StringToKey(b);
    TextOrderIsNumeric(Not(Xor(t, x)), Not(Xor(t, y)));
    ComplementReverses(Xor(t, x), Xor(t, y));
    assert Xor(t, x) == Xor(x, t) && Xor(t, y) == Xor(y, t);
  }

  // Entry i is the last of its point with key k.
  ghost predicate LastOfPoint(s: seq<Entry>, i: nat, k: string)
    requires i < |s|
  {
    && s[i].contact.key == k
    && forall j :: i < j < |s| ==> StringToKey(s[j].contact.key) != StringToKey(k)
  }

  ghost predicate HasLast(s: seq<Entry>, k: string) {
    exists i :: 0 <= i < |s| && LastOfPoint(s, i, k)
  }

  lemma HasLastSnoc(s: seq<Entry>, e: Entry, k: string)
    ensures HasLast(s + [e], k)
            <==> e.contact.key == k || (HasLast(s, k) && StringToKey(e.contact.key) != StringToKey(k))
  {
    var t := s + [e];
    hide StringToKey;
    if e.contact.key == k { assert LastOfPoint(t, |s|, k); }
    if HasLast(s, k) && StringToKey(e.contact.key) != StringToKey(k) {
      var i :| 0 <= i < |s| && LastOfPoint(s, i, k);
      assert LastOfPoint(t, i, k);
    }
    if HasLast(t, k) && e.contact.key != k {
      var i :| 0 <= i < |t| && LastOfPoint(t, i, k);
      assert t[|s|] == e && forall j :: 0 <= j < |s| ==> t[j] == s[j];
      assert LastOfPoint(s, i, k);
    }
  }

  lemma NamedSnoc(s: seq<Entry>, e: Entry, target: string, k: string)
    ensures NamedIn(ProximityOf(s + [e], target), k)
            <==> (e.contact.key == k
                  || (NamedIn(ProximityOf(s, target), k) && StringToKey(e.contact.key) != StringToKey(k)))
  {
    var m, place := ProximityOf(s, target), CacheText(target, e.contact.key);
    assert (s + [e])[..|s|] == s;
    var p := TextPut(m, place, e.contact.key);
    ProximitySorted(s, target);
    BuiltSound(s, target);
    PlaceExactly(target, e.contact.key, k);
    hide CacheText, StringToKey, TextPut;
    forall q ensures q in p <==> q == (place, e.contact.key) || (q in m && q.0 != place) {
      TextPutExactly(m, place, e.contact.key, q);
    }
    if e.contact.key == k { assert (place, k) in p; }
    if NamedIn(m, k) && StringToKey(e.contact.key) != StringToKey(k) {
      var q :| q in m && q.1 == k;
      assert q in p;
    }
  }

  lemma PlaceExactly(target: string, a: string, b: string)
    ensures CacheText(target, a) == CacheText(target, b) <==> StringToKey(a) == StringToKey(b)
  {
    if CacheText(target, a) == CacheText(target, b) { CacheTextInjective(target, a, b); }
  }

  // What a cache just built holds: for each point the key of its last entry.
  lemma {:induction false} NamedExactly(s: seq<Entry>, target: string, k: string)
    ensures NamedIn(ProximityOf(s, target), k) <==> HasLast(s, k)
  {
    if s != [] {
      var front, e := s[..|s| - 1], s[|s| - 1];
      assert s == front + [e];
      NamedExactly(front, target, k);
      NamedSnoc(front, e, target, k);
      HasLastSnoc(front, e, k);
    }
  }

  // A later entry denotes the same point.
  ghost predicate Shadowed(s: seq<Entry>, k: string) {
    exists i, j :: 0 <= i < j < |s| && s[i].contact.key == k && StringToKey(s[j].contact.key) == StringToKey(k)
  }

  ghost predicate KeyIn(s: seq<Entry>, k: string) {
    exists i :: 0 <= i < |s| && s[i].contact.key == k
  }

  lemma LastUnlessShadowed(s: seq<Entry>, k: string)
    requires UniqueKeys(s)
    ensures HasLast(s, k) <==> KeyIn(s, k) && !Shadowed(s, k)
  {
    hide StringToKey;
    if KeyIn(s, k) && !Shadowed(s, k) {
      var i :| 0 <= i < |s| && s[i].contact.key == k;
      assert LastOfPoint(s, i, k);
    }
    if HasLast(s, k) {
      var i :| 0 <= i < |s| && LastOfPoint(s, i, k);
    }
  }

  // A cache just built yields the whole table if and only if no two contacts denote one point.
  lemma FreshListingExactly(s: seq<Entry>, target: string)
    requires UniqueKeys(s)
    ensures Elements(Listing(ProximityOf(s, target), s)) == TableContacts(s) <==> PointsDistinct(s)
  {
    var p := ProximityOf(s, target);
    ListingExactly(s, p);
    if forall e :: e in s ==> NamedIn(p, e.contact.key) {
      forall e, f | e in s && f in s && StringToKey(e.contact.key) == StringToKey(f.contact.key) ensures e == f {
        BothNamed(s, target, e, f);
      }
    }
    if PointsDistinct(s) {
      forall e | e in s ensures NamedIn(p, e.contact.key) {
        DistinctIsNamed(s, target, e);
      }
    }
  }

  lemma BothNamed(s: seq<Entry>, target: string, e: Entry, f: Entry)
    requires UniqueKeys(s) && e in s && f in s && StringToKey(e.contact.key) == StringToKey(f.contact.key)
    requires NamedIn(ProximityOf(s, target), e.contact.key) && NamedIn(ProximityOf(s, target), f.contact.key)
    ensures e == f
  {
    OneNameEach(s, target, e.contact.key, f.contact.key);
    FindIndexUnique(s, e);
    FindIndexUnique(s, f);
  }

  lemma DistinctIsNamed(s: seq<Entry>, target: string, e: Entry)
    requires UniqueKeys(s) && PointsDistinct(s) && e in s
    ensures NamedIn(ProximityOf(s, target), e.contact.key)
  {
    hide StringToKey;
    NamedExactly(s, target, e.contact.key);
    var i :| 0 <= i < |s| && s[i] == e;
    forall j | i < j < |s| ensures StringToKey(s[j].contact.key) != StringToKey(e.contact.key) {
      assert s[j] in s;
    }
    assert LastOfPoint(s, i, e.contact.key);
  }

  // On canonical keys a cache that is served, however stale, always yields the whole table.
  lemma ListingIsTable(b: BucketState)
    requires Sound(b) && !b.changed && CanonicalState(b)
    ensures Elements(Listing(b.proximity, b.entries)) == TableContacts(b.entries)
  {
    var s, p := b.entries, b.proximity;
    ListingExactly(s, p);
    forall e | e in s ensures NamedIn(p, e.contact.key) {
      assert Cached(p, e.contact.key);
      var q :| q in p && StringToKey(q.1) == StringToKey(e.contact.key);
      StringToKeyInjective(q.1, e.contact.key);
    }
  }

  lemma FindIndexUnique(s: seq<Entry>, e: Entry)
    requires UniqueKeys(s) && e in s
    ensures FindIndex(s, e.contact.key) < |s| && s[FindIndex(s, e.contact.key)] == e
  {
    var i :| 0 <= i < |s| && s[i] == e;
    FindIndexAbsent(s, e.contact.key);
  }

  // ---------------------------------------------------------------- runs

  datatype Op =
    | Add(key: string, ep: Endpoint, now: nat)
    | Remove(ep: Endpoint)
    | Erase(index: nat)
    | Build(key: string)

  // `None` once the program has no defined behaviour.
  function Step(b: BucketState, op: Op): Option<BucketState> {
    match op
    case Add(k, ep, now) => Some(AddState(b, k, ep, now))
    case Remove(ep) =>
      var r := RemoveLoop(b.entries, 0, ep);
      if r.Some? then Some(b.(entries := r.value)) else None
    case Erase(i) => Some(if i < |b.entries| then b.(entries := RemoveAt(b.entries, i)) else b)
    case Build(k) => Some(BuildState(b, k))
  }

  function Steps(local: string, ops: seq<Op>): Option<BucketState> {
    if ops == [] then Some(BucketState(local, [], [], true))
    else
      var b := Steps(local, ops[..|ops| - 1]);
      if b.Some? then Step(b.value, ops[|ops| - 1]) else None
  }

  ghost predicate AddsCanonical(ops: seq<Op>) {
    forall i :: 0 <= i < |ops| && ops[i].Add? ==> Canonical(ops[i].key)
  }

  lemma FewerEntries(b: BucketState, s: seq<Entry>)
    requires Sound(b) && Table(b.localKey, s) && forall e :: e in s ==> e in b.entries
    ensures Sound(b.(entries := s)) && (CanonicalState(b) ==> CanonicalState(b.(entries := s)))
  {
  }

  lemma StepKeepsSound(b: BucketState, op: Op)
    requires Sound(b) && Step(b, op).Some?
    ensures Sound(Step(b, op).value) && Step(b, op).value.localKey == b.localKey
    ensures CanonicalState(b) && (op.Add? ==> Canonical(op.key)) ==> CanonicalState(Step(b, op).value)
  {
    match op
    case Add(k, ep, now) => AddKeepsSound(b, k, ep, now);
    case Remove(ep) =>
      RemoveLoopKeepsTable(b.localKey, b.entries, 0, ep);
      RemovalIsComplete(b.entries, ep);
      FewerEntries(b, RemoveLoop(b.entries, 0, ep).value);
    case Erase(i) =>
      if i < |b.entries| {
        RemoveKeepsTable(b.localKey, b.entries, i);
        RemoveMembers(b.entries, i);
        FewerEntries(b, RemoveAt(b.entries, i));
      }
    case Build(k) => BuildKeepsSound(b, k);
  }

  // Every state reached by any run of the operations is sound: entries sit under their own
  // prefix length, keys are unique, the local key is absent, no bucket exceeds its size, and
  // the cache, when it is served, covers the table.
  lemma {:induction false} ReachableIsSound(local: string, ops: seq<Op>)
    requires Steps(local, ops).Some?
    ensures Sound(Steps(local, ops).value) && Steps(local, ops).value.localKey == local
    ensures AddsCanonical(ops) ==> CanonicalState(Steps(local, ops).value)
  {
    if ops == [] {
      EmptyTable(local);
    } else {
      var n := |ops| - 1;
      ReachableIsSound(local, ops[..n]);
      assert AddsCanonical(ops) ==> AddsCanonical(ops[..n]);
      StepKeepsSound(Steps(local, ops[..n]).value, ops[n]);
    }
  }

  // The operation brings a key that the table did not hold.
  ghost predicate Inserts(b: BucketState, op: Op) {
    op.Add? && op.key != b.localKey && forall e :: e in b.entries ==> e.contact.key != op.key
  }

  ghost predicate InsertsAt(local: string, ops: seq<Op>, n: nat)
    requires n < |ops|
  {
    Steps(local, ops[..n]).Some? && Inserts(Steps(local, ops[..n]).value, ops[n])
  }

  // No cache was built since operation n.
  ghost predicate UnbuiltSince(ops: seq<Op>, n: nat) {
    forall k :: n <= k < |ops| ==> !ops[k].Build?
  }

  // No cache was ever built, or none since a new key came.
  ghost predicate Stale(local: string, ops: seq<Op>) {
    UnbuiltSince(ops, 0) || exists n :: 0 <= n < |ops| && InsertsAt(local, ops, n) && UnbuiltSince(ops, n)
  }

  lemma StaleSnoc(local: string, ops: seq<Op>, op: Op)
    requires Steps(local, ops).Some?
    ensures Stale(local, ops + [op]) <==> !op.Build? && (Stale(local, ops) || Inserts(Steps(local, ops).value, op))
  {
    var all, l := ops + [op], |ops|;
    hide Inserts, Steps;
    assert all[l] == op && all[..l] == ops && forall k :: 0 <= k < l ==> all[k] == ops[k];
    forall n | 0 <= n < l ensures InsertsAt(local, all, n) <==> InsertsAt(local, ops, n) {
      assert all[..n] == ops[..n];
    }
    if !op.Build? {
      forall n | 0 <= n <= l ensures UnbuiltSince(all, n) <==> UnbuiltSince(ops, n) {
        if UnbuiltSince(all, n) { assert forall k :: n <= k < l ==> !all[k].Build?; }
      }
      if Inserts(Steps(local, ops).value, op) { assert InsertsAt(local, all, l) && UnbuiltSince(all, l); }
      if Stale(local, ops) && !UnbuiltSince(ops, 0) {
        var n :| 0 <= n < l && InsertsAt(local, ops, n) && UnbuiltSince(ops, n);
        assert InsertsAt(local, all, n) && UnbuiltSince(all, n);
      }
    }
  }

  // The next lookup rebuilds the cache if and only if a new key came since it was built last: fresh
  // endpoints, removals and erasures leave it as it is.
  lemma {:induction false} RebuildsExactly(local: string, ops: seq<Op>)
    requires Steps(local, ops).Some?
    ensures Steps(local, ops).value.changed <==> Stale(local, ops)
  {
    if ops != [] {
      var front, op := ops[..|ops| - 1], ops[|ops| - 1];
      assert ops == front + [op];
      RebuildsExactly(local, front);
      StaleSnoc(local, front, op);
      ChangedByStep(Steps(local, front).value, op);
    }
  }

  lemma ChangedByStep(b: BucketState, op: Op)
    requires Step(b, op).Some?
    ensures Step(b, op).value.changed <==> !op.Build? && (b.changed || Inserts(b, op))
  {
    if op.Add? { FindIndexAbsent(b.entries, op.key); }
  }

  // The table from which the cache was built last.
  function BuiltFrom(local: string, ops: seq<Op>): (seq<Entry>, string) {
    if ops == [] then ([], "")
    else
      var front, op := ops[..|ops| - 1], ops[|ops| - 1];
      var b := Steps(local, front);
      if op.Build? && b.Some? && b.value.changed then (b.value.entries, op.key) else BuiltFrom(local, front)
  }

  // A cache that is served is that of the table it was built from, and no key has come since.
  ghost predicate BuiltBefore(b: BucketState, built: (seq<Entry>, string)) {
    b.changed || (&& UniqueKeys(built.0) && b.proximity == ProximityOf(built.0, built.1)
                  && forall e :: e in b.entries ==> KeyIn(built.0, e.contact.key))
  }

  lemma AddKeepsBuilt(b: BucketState, built: (seq<Entry>, string), k: string, ep: Endpoint, now: nat)
    requires Sound(b) && BuiltBefore(b, built)
    ensures BuiltBefore(AddState(b, k, ep, now), built)
  {
    var c := AddState(b, k, ep, now);
    if !c.changed {
      AddedMembers(b.localKey, b.entries, k, ep, now);
      forall e | e in c.entries ensures KeyIn(built.0, e.contact.key) {
        var f :| f in b.entries && f.contact.key == e.contact.key;
      }
    }
  }

  lemma StepKeepsBuilt(b: BucketState, built: (seq<Entry>, string), op: Op)
    requires Sound(b) && BuiltBefore(b, built) && Step(b, op).Some?
    ensures BuiltBefore(Step(b, op).value, if op.Build? && b.changed then (b.entries, op.key) else built)
  {
    match op
    case Add(k, ep, now) => AddKeepsBuilt(b, built, k, ep, now);
    case Remove(ep) => RemovalIsComplete(b.entries, ep);
    case Erase(i) => if i < |b.entries| { RemoveMembers(b.entries, i); }
    case Build(k) => if b.changed { KeysInItself(b.entries); }
  }

  lemma KeysInItself(s: seq<Entry>)
    ensures forall e :: e in s ==> KeyIn(s, e.contact.key)
  {
  }

  lemma {:induction false} ReachableIsBuilt(local: string, ops: seq<Op>)
    requires Steps(local, ops).Some?
    ensures BuiltBefore(Steps(local, ops).value, BuiltFrom(local, ops))
  {
    if ops != [] {
      var front, op := ops[..|ops| - 1], ops[|ops| - 1];
      ReachableIsSound(local, front);
      ReachableIsBuilt(local, front);
      StepKeepsBuilt(Steps(local, front).value, BuiltFrom(local, front), op);
    }
  }

  // A lookup in any reachable state is given exactly the table if and only if, in the table from
  // which the cache was built last, no later entry denotes the point of a key that is still there.
  lemma LookupExactly(local: string, ops: seq<Op>, target: string)
    requires Steps(local, ops).Some?
    ensures var all := ops + [Build(target)];
            && Steps(local, all).Some?
            && var b := Steps(local, all).value;
               (Elements(Listing(b.proximity, b.entries)) == TableContacts(b.entries)
                <==> forall e :: e in b.entries ==> !Shadowed(BuiltFrom(local, all).0, e.contact.key))
  {
    var all := ops + [Build(target)];
    StepsSnoc(local, ops, Build(target));
    ReachableIsSound(local, all);
    ReachableIsBuilt(local, all);
    ServedExactly(Steps(local, all).value, BuiltFrom(local, all));
  }

  lemma ServedExactly(b: BucketState, built: (seq<Entry>, string))
    requires UniqueKeys(b.entries) && !b.changed && BuiltBefore(b, built)
    ensures Elements(Listing(b.proximity, b.entries)) == TableContacts(b.entries)
            <==> forall e :: e in b.entries ==> !Shadowed(built.0, e.contact.key)
  {
    hide StringToKey, Listing, ProximityOf, Shadowed, HasLast, KeyIn, NamedIn, UniqueKeys;
    ListingExactly(b.entries, b.proximity);
    forall e | e in b.entries
      ensures NamedIn(b.proximity, e.contact.key) <==> !Shadowed(built.0, e.contact.key)
    {
      NamedExactly(built.0, built.1, e.contact.key);
      LastUnlessShadowed(built.0, e.contact.key);
    }
  }

  lemma EndsBuilt(local: string, ops: seq<Op>, target: string)
    requires Steps(local, ops + [Build(target)]).Some?
    ensures !Steps(local, ops + [Build(target)]).value.changed
  {
    assert (ops + [Build(target)])[..|ops|] == ops;
  }

  // A table that a lookup sees whole has no two contacts of one point, so distances tell them apart.
  lemma WholeIsDistinct(b: BucketState, built: (seq<Entry>, string), target: string)
    requires UniqueKeys(b.entries) && !b.changed && BuiltBefore(b, built)
    requires Elements(Listing(b.proximity, b.entries)) == TableContacts(b.entries)
    ensures DistancesDistinct(b.entries, target)
  {
    hide Listing, ProximityOf, StringToKey, KeyDistance;
    ListingExactly(b.entries, b.proximity);
    forall c, e | c in b.entries && e in b.entries
        && KeyDistance(c.contact.key, target) == KeyDistance(e.contact.key, target)
      ensures c == e
    {
      DistanceIsPoint(target, c.contact.key, e.contact.key);
      OneNameEach(built.0, built.1, c.contact.key, e.contact.key);
      FindIndexUnique(b.entries, c);
      FindIndexUnique(b.entries, e);
    }
  }

  lemma OneNameEach(s: seq<Entry>, target: string, k: string, l: string)
    requires NamedIn(ProximityOf(s, target), k) && NamedIn(ProximityOf(s, target), l)
    requires StringToKey(k) == StringToKey(l)
    ensures k == l
  {
    NamedExactly(s, target, k);
    NamedExactly(s, target, l);
    var i :| 0 <= i < |s| && LastOfPoint(s, i, k);
    var j :| 0 <= j < |s| && LastOfPoint(s, j, l);
  }

  // Two contacts of one point, under different texts, can both enter the table; the next lookup
  // misses one of them.
  lemma ListingCanMissContact(local: string, a: string, b: string, ep: Endpoint, target: string)
    requires a != b && StringToKey(a) == StringToKey(b) && a != local && b != local
    ensures var r := Steps(local, [Add(a, ep, 0), Add(b, ep, 1), Build(target)]);
            && r.Some? && !r.value.changed
            && |r.value.entries| == 2
            && Elements(Listing(r.value.proximity, r.value.entries)) != TableContacts(r.value.entries)
  {
    hide StringToKey, ProximityOf, Listing, AddState;
    var s := TwoAdds(local, a, b, ep);
    ThreeSteps(local, Add(a, ep, 0), Add(b, ep, 1), Build(target));
    TwoTextsOnePoint(s, target);
  }

  lemma TwoTextsOnePoint(s: seq<Entry>, target: string)
    requires |s| == 2 && UniqueKeys(s) && StringToKey(s[0].contact.key) == StringToKey(s[1].contact.key)
    ensures Elements(Listing(ProximityOf(s, target), s)) != TableContacts(s)
  {
    FreshListingExactly(s, target);
    assert s[0] in s && s[1] in s && s[0] != s[1];
  }

  lemma StepsSnoc(local: string, ops: seq<Op>, op: Op)
    requires Steps(local, ops).Some?
    ensures Steps(local, ops + [op]) == Step(Steps(local, ops).value, op)
  {
    assert (ops + [op])[..|ops|] == ops;
  }

  lemma ThreeSteps(local: string, x: Op, y: Op, z: Op)
    requires x.Add? && y.Add?
    ensures Steps(local, [x, y, z])
            == Step(AddState(AddState(BucketState(local, [], [], true), x.key, x.ep, x.now), y.key, y.ep, y.now), z)
  {
    StepsSnoc(local, [], x);
    StepsSnoc(local, [] + [x], y);
    StepsSnoc(local, [] + [x] + [y], z);
    assert [] + [x] + [y] + [z] == [x, y, z];
  }

  lemma TwoAdds(local: string, a: string, b: string, ep: Endpoint) returns (s: seq<Entry>)
    requires a != b && StringToKey(a) == StringToKey(b) && a != local && b != local
    ensures AddState(AddState(BucketState(local, [], [], true), a, ep, 0), b, ep, 1) == BucketState(local, s, [], true)
    ensures |s| == 2 && s[0].contact.key == a && s[1].contact.key == b && UniqueKeys(s)
  {
    var c := SharedBits(local, a);
    var e, f := Entry(c, Contact(a, ep, Some(0))), Entry(c, Contact(b, ep, Some(1)));
    assert Added(local, [], a, ep, 0) == [e];
    assert [e][1..] == [];
    s := [e, f];
    assert Upper([e], c) == 1 && Lower([e], c) == 0 && FindIndex([e], b) == 1;
    assert InsertAt([e], 1, f) == s;
  }

  ghost predicate DistancesDistinct(s: seq<Entry>, target: string) {
    forall c, e :: (c in s && e in s && KeyDistance(c.contact.key, target) == KeyDistance(e.contact.key, target))
        ==> c == e
  }

  // A lookup started in any reachable state, whatever key the cache was built for, is given
  // exactly the routing table.
  lemma LookupSeesWholeTable(local: string, ops: seq<Op>, target: string)
    requires Steps(local, ops).Some? && AddsCanonical(ops)
    ensures var b := BuildState(Steps(local, ops).value, target);
            Elements(Listing(b.proximity, b.entries)) == TableContacts(b.entries)
    ensures DistancesDistinct(Steps(local, ops).value.entries, target)
  {
    ReachableIsSound(local, ops);
    var b := Steps(local, ops).value;
    BuildKeepsSound(b, target);
    ListingIsTable(BuildState(b, target));
    forall c, e | c in b.entries && e in b.entries
        && KeyDistance(c.contact.key, target) == KeyDistance(e.contact.key, target)
      ensures c == e
    {
      DistanceIdentifies(target, c.contact.key, e.contact.key);
      FindIndexUnique(b.entries, c);
      FindIndexUnique(b.entries, e);
    }
  }

  // ------------------------------------------------------------ the class

  class Bucket {
    const localKey: string
    var entries: seq<Entry>
    var mapProximity: Proximity
    var changed: bool

    function Model(): BucketState
      reads this
    {
      BucketState(localKey, entries, mapProximity, changed)
    }

    ghost predicate Valid()
      reads this
    {
      Sound(Model())
    }

    constructor (k: string)
      ensures Valid() && Model() == BucketState(k, [], [], true)
    {
      localKey := k;
      entries := [];
      mapProximity := [];
      changed := true;
    }

    // The position of the key, or the end position; only the bucket of its prefix is searched.
    method FindKey(k: string) returns (n: nat)
      requires Valid()
      ensures n == FindIndex(entries, k)
    {
      var common := CountCommonBits(StringToKey(localKey), StringToKey(k));
      BucketCount(entries, common);
      var end := Upper(entries, common);
      n := ScanBucket(entries, Lower(entries, common), end, k);
      if n < end {
        OnlyPosition(entries, k, n);
      } else {
        NotInBucket(localKey, entries, k);
        n := |entries|;
      }
    }

    // `operator[]`: the endpoint, or an exception (`None`) for an unknown key.
    method EndpointOf(k: string) returns (ep: Option<Endpoint>)
      requires Valid()
      ensures ep == if FindIndex(entries, k) < |entries| then Some(entries[FindIndex(entries, k)].contact.ep) else None
      ensures ep == None <==> forall e :: e in entries ==> e.contact.key != k
    {
      FindIndexAbsent(entries, k);
      var n := FindKey(k);
      if n < |entries| { return Some(entries[n].contact.ep); }
      return None;
    }

    method AddContact(k: string, ep: Endpoint, now: nat)
      requires Valid()
      modifies this`entries, this`changed
      ensures Valid() && Model() == AddState(old(Model()), k, ep, now)
    {
      AddKeepsSound(Model(), k, ep, now);
      if k == localKey { return; }
      var common := CountCommonBits(StringToKey(localKey), StringToKey(k));
      var ite := FindKey(k);
      if ite == |entries| {
        InsertPair(Entry(common, Contact(k, ep, Some(now))));
        changed := true;
      } else {
        SetContact(ite, ep, now);
      }
    }

    method InsertPair(p: Entry)
      requires Ordered(entries)
      modifies this`entries
      ensures entries == InsertAt(Evicted(old(entries), p.common), Upper(Evicted(old(entries), p.common), p.common), p)
    {
      MakeRoom(p.common);
      entries := InsertAt(entries, Upper(entries, p.common), p);
    }

    method MakeRoom(common: nat)
      requires Ordered(entries)
      modifies this`entries
      ensures entries == Evicted(old(entries), common)
    {
      var lo, hi := Lower(entries, common), Upper(entries, common);
      BucketCount(entries, common);
      var itemCount := hi - lo;
      if itemCount >= BUCKET_SIZE { EvictOldest(lo, itemCount); }
    }

    method EvictOldest(lo: nat, itemCount: nat)
      requires 0 < itemCount && lo + itemCount <= |entries|
      modifies this`entries
      ensures entries == RemoveAt(old(entries), Oldest(old(entries), lo, lo + itemCount))
    {
      var oldest := OldestOf(lo, itemCount);
      entries := RemoveAt(entries, oldest);
    }

    method SetContact(ite: nat, ep: Endpoint, now: nat)
      requires ite < |entries|
      modifies this`entries
      ensures var e := old(entries)[ite];
              entries == old(entries)[ite := Entry(e.common, Contact(e.contact.key, ep, Some(now)))]
    {
      var c := entries[ite].contact;
      if c.ep != ep { c := c.(ep := ep); }
      c := c.(time := Some(now));
      entries := entries[ite := Entry(entries[ite].common, c)];
    }

    // The first pair of the map from time to position that `add_contact` builds: a later
    // position with the same time replaces an earlier one.
    method OldestOf(lo: nat, itemCount: nat) returns (m: nat)
      requires 0 < itemCount && lo + itemCount <= |entries|
      ensures m == Oldest(entries, lo, lo + itemCount)
    {
      m := lo;
      for i := 1 to itemCount
        invariant m == Oldest(entries, lo, lo + i)
      {
        if Stamp(entries[lo + i].contact) <= Stamp(entries[m].contact) { m := lo + i; }
      }
    }

    // False when the loop leaves defined behaviour, which is when the table was a single
    // contact at the endpoint.
    method RemoveContact(ep: Endpoint) returns (defined: bool)
      requires Valid()
      modifies this`entries
      ensures defined <==> Removed(old(entries), ep).Some?
      ensures defined ==> Valid() && entries == Removed(old(entries), ep).value
    {
      RemoveLoopStart(entries, 0, ep);
      var i := 0;
      while i < |entries|
        invariant Valid() && i <= |entries| && RemoveLoop(entries, i, ep) == Removed(old(entries), ep)
        decreases |entries|, |entries| - i
      {
        if entries[i].contact.ep == ep {
          RemoveKeepsTable(localKey, entries, i);
          RemoveMembers(entries, i);
          FewerEntries(Model(), RemoveAt(entries, i));
          if |entries| == 1 { entries := []; return false; }
          entries := RemoveAt(entries, i);
          i := 0;
        }
        i := i + 1;
      }
      return true;
    }

    method BuildProximity(k: string) returns (p: Proximity)
      requires Valid()
      modifies this`mapProximity, this`changed
      ensures Valid() && Model() == BuildState(old(Model()), k) && p == mapProximity
      ensures Covers(p, entries)
    {
      BuildKeepsSound(Model(), k);
      if !changed { return mapProximity; }
      mapProximity := CollectProximity(entries, k);
      changed := false;
      return mapProximity;
    }
  }

  // The loop of `find_key` over the bucket [lo, hi).
  method ScanBucket(s: seq<Entry>, lo: nat, hi: nat, k: string) returns (n: nat)
    requires lo <= hi <= |s|
    ensures lo <= n <= hi && (forall j :: lo <= j < n ==> s[j].contact.key != k)
    ensures n < hi ==> s[n].contact.key == k
  {
    for i := lo to hi
      invariant forall j :: lo <= j < i ==> s[j].contact.key != k
    {
      if s[i].contact.key == k { return i; }
    }
    return hi;
  }

  // The loop of `build_proximity` over the whole table.
  method CollectProximity(entries: seq<Entry>, k: string) returns (p: Proximity)
    ensures p == ProximityOf(entries, k)
  {
    p := [];
    for i := 0 to |entries|
      invariant p == ProximityOf(entries[..i], k)
    {
      assert entries[..i + 1][..i] == entries[..i];
      var key := entries[i].contact.key;
      p := TextPut(p, CacheText(k, key), key);
    }
    assert entries[..|entries|] == entries;
  }

  lemma OnlyPosition(s: seq<Entry>, k: string, i: nat)
    requires UniqueKeys(s) && i < |s| && s[i].contact.key == k
    ensures FindIndex(s, k) == i
  {
  }

  // A key that is not in the bucket of its own prefix is nowhere in the table.
  lemma NotInBucket(local: string, s: seq<Entry>, k: string)
    requires Table(local, s)
    requires var c := SharedBits(local, k); forall j :: Lower(s, c) <= j < Upper(s, c) ==> s[j].contact.key != k
    ensures FindIndex(s, k) == |s|
  {
    var n := FindIndex(s, k);
    if n < |s| { Segment(s, SharedBits(local, k), n); }
  }
}
