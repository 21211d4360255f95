// Storing records as they arrive, and what the tables hold over any run of stores and removals.
module RecordRuns {
  import opened Wrappers
  import opened Records

  // A new key evicts enough records, whichever, to fit. A known title keeps its data and takes
  // the new time if that is later than the time of some record of the key, whichever the
  // listing has first. A new title of a known key is added, whatever the limit.
  ghost predicate Stores(c: Contents, d: Contents, limit: nat, key: string, title: string, r: Record) {
    if Absent(c, key) then
      exists kept :: Evicts(c, kept, limit) && d == kept[(key, title) := r]
    else if (key, title) in c then
      exists b :: (key, b) in c && d == Renewed(c, key, title, r, c[(key, b)].time)
    else
      d == c[(key, title) := r]
  }

  ghost predicate Absent(c: Contents, key: string) {
    forall title :: (key, title) !in c
  }

  function Renewed(c: Contents, key: string, title: string, r: Record, time: int): Contents
    requires (key, title) in c
  {
    if time < r.time then c[(key, title) := Record(r.time, r.ttl, c[(key, title)].data)] else c
  }

  lemma ListedTimeDecides(c: Contents, limit: nat, key: string, title: string, r: Record, row: ListingRow)
    requires Listed(c, key, row) && row.title == title
    ensures Stores(c, Renewed(c, key, title, r, row.time), limit, key, title, r)
  {
    var b :| (key, b) in c && Timed(c[(key, b)], row);
    assert Renewed(c, key, title, r, row.time) == Renewed(c, key, title, r, c[(key, b)].time);
  }

  // The first row of the title decides.
  lemma RowDecides(t: Tables, u: Tables, limit: nat, key: string, title: string, r: Record, row: ListingRow)
    requires Whole(t) && row in Listing(t, key) && row.title == title
    requires u == if row.time < r.time then Updated(t, key, title, r.time, r.ttl) else t
    ensures Whole(u) && Stores(Holds(t), Holds(u), limit, key, title, r)
  {
    ListedRow(t, key, row);
    ListedTimeDecides(Holds(t), limit, key, title, r, row);
    if row.time < r.time { UpdateChanges(t, key, title, r.time, r.ttl); }
  }

  // No row of the title means that the tables do not hold it.
  lemma NoRowMeansNew(t: Tables, rows: seq<ListingRow>, limit: nat, key: string, title: string, r: Record)
    requires Whole(t) && !Absent(Holds(t), key) && multiset(rows) == multiset(Listing(t, key))
    requires forall j :: 0 <= j < |rows| ==> rows[j].title != title
    ensures var u := Inserted(t, key, title, r); Whole(u) && Stores(Holds(t), Holds(u), limit, key, title, r)
  {
    SameRows(rows, Listing(t, key));
    if (key, title) in Holds(t) { TitleIsListed(t, key, title); }
    InsertAdds(t, key, title, r);
  }

  // For a limit of zero the loop that makes room would never end.
  method InsertDb(db: Storage, maxRecords: nat, now: int, key: string, title: string, r: Record)
    requires db.Valid() && maxRecords >= 1
    modifies db
    ensures db.Valid()
    ensures Stores(old(Holds(db.Model())), Holds(db.Model()), maxRecords, key, title, r)
  {
    CountFinds(db.Model(), key);
    var count := db.Count(key);
    if count == 0 {
      StoreNew(db, maxRecords, key, title, r);
      return;
    }
    var rows := db.FindNoBlob(key);
    ghost var t := db.Model();
    assert !Absent(Holds(t), key);
    var i := 0;
    while i < |rows|
      invariant 0 <= i <= |rows| && db.Model() == t
      invariant forall j :: 0 <= j < i ==> rows[j].title != title
    {
      if rows[i].title == title {
        SameRows(rows, Listing(t, key));
        if now - r.time < now - rows[i].time { db.Update(key, title, r.time, r.ttl); }
        RowDecides(t, db.Model(), maxRecords, key, title, r, rows[i]);
        return;
      }
      i := i + 1;
    }
    NoRowMeansNew(t, rows, maxRecords, key, title, r);
    db.Insert(key, title, r);
  }

  // The first branch of InsertDb: make room, then insert.
  method StoreNew(db: Storage, maxRecords: nat, key: string, title: string, r: Record)
    requires db.Valid() && maxRecords >= 1 && Absent(Holds(db.Model()), key)
    modifies db
    ensures db.Valid()
    ensures Stores(old(Holds(db.Model())), Holds(db.Model()), maxRecords, key, title, r)
  {
    db.MakeRoom(maxRecords);
    InsertAdds(db.Model(), key, title, r);
    db.Insert(key, title, r);
  }

  lemma SameRows(rows: seq<ListingRow>, listing: seq<ListingRow>)
    requires multiset(rows) == multiset(listing)
    ensures forall row :: row in rows <==> row in listing
  {
    forall row ensures row in rows <==> row in listing {
      assert row in multiset(rows) <==> row in multiset(listing);
    }
  }

  // ------------------------------------------------------------- the limit

  // A store leaves no more than the limit exactly when the key is new, or the title is known
  // and the limit was respected before, or there was room.
  lemma LimitExactly(c: Contents, d: Contents, limit: nat, key: string, title: string, r: Record)
    requires limit >= 1 && Stores(c, d, limit, key, title, r)
    ensures |d| <= limit <==> Absent(c, key) || ((key, title) in c && |c| <= limit) || |c| < limit
  {
    if Absent(c, key) {
      var kept :| Evicts(c, kept, limit) && d == kept[(key, title) := r];
      assert (key, title) !in kept;
      Grows(kept, (key, title), r);
    } else if (key, title) !in c {
      Grows(c, (key, title), r);
    } else {
      var b :| (key, b) in c && d == Renewed(c, key, title, r, c[(key, b)].time);
      assert d.Keys == c.Keys;
    }
  }

  lemma Grows(c: Contents, name: Name, r: Record)
    requires name !in c
    ensures |c[name := r]| == |c| + 1
  {
    assert c[name := r].Keys == c.Keys + {name};
  }

  // A store leaves every other record that stays as it was. A known key drops nothing; a new one
  // drops as many records as make room for it, and none if there was room.
  lemma StoreDropsExactly(c: Contents, d: Contents, limit: nat, key: string, title: string, r: Record)
    requires limit >= 1 && Stores(c, d, limit, key, title, r)
    ensures (key, title) in d && forall name :: name in d && name != (key, title) ==> name in c && d[name] == c[name]
    ensures |c.Keys - d.Keys| == if Absent(c, key) && |c| >= limit then |c| - limit + 1 else 0
  {
    if Absent(c, key) {
      var kept :| Evicts(c, kept, limit) && d == kept[(key, title) := r];
      assert (key, title) !in c;
      NewKeyDrops(c, kept, d, limit, (key, title), r);
    } else {
      assert c.Keys - d.Keys == {};
    }
  }

  lemma NewKeyDrops(c: Contents, kept: Contents, d: Contents, limit: nat, name: Name, r: Record)
    requires limit >= 1 && Evicts(c, kept, limit) && d == kept[name := r] && name !in c
    ensures |c.Keys - d.Keys| == if |c| >= limit then |c| - limit + 1 else 0
  {
    assert kept.Keys <= c.Keys;
    assert c.Keys - d.Keys == c.Keys - kept.Keys;
    assert |c.Keys - kept.Keys| == |c.Keys| - |kept.Keys|;
    assert |c.Keys| == |c| && |kept.Keys| == |kept|;
  }

  // The time of a stored title can go back exactly when another record of its key is older
  // than the new one while its own is younger.
  lemma TimeGoesBackExactly(c: Contents, limit: nat, key: string, title: string, r: Record)
    requires (key, title) in c
    ensures (exists d: Contents :: Stores(c, d, limit, key, title, r) && (key, title) in d
                 && d[(key, title)].time < c[(key, title)].time)
            <==> r.time < c[(key, title)].time && exists b :: (key, b) in c && c[(key, b)].time < r.time
  {
    if exists b :: (key, b) in c && c[(key, b)].time < r.time && r.time < c[(key, title)].time {
      var b :| (key, b) in c && c[(key, b)].time < r.time;
      var d := Renewed(c, key, title, r, c[(key, b)].time);
      assert Stores(c, d, limit, key, title, r) && d[(key, title)].time == r.time;
    }
  }

  // ------------------------------------------------------------------ runs

  datatype Event = Store(key: string, title: string, record: Record) | Remove(key: string, title: string)

  ghost predicate Steps(c: Contents, d: Contents, limit: nat, e: Event) {
    match e
    case Store(key, title, r) => Stores(c, d, limit, key, title, r)
    case Remove(key, title) => d == c - {(key, title)}
  }

  // The contents before the first event, after it, after the second, and so on.
  ghost predicate Run(states: seq<Contents>, events: seq<Event>, limit: nat) {
    && |states| == |events| + 1
    && states[0] == map[]
    && forall n :: 0 <= n < |events| ==> Steps(states[n], states[n + 1], limit, events[n])
  }

  // Records arrive under one title for each key.
  predicate OneTitle(events: seq<Event>, titles: string -> string) {
    forall n :: 0 <= n < |events| && events[n].Store? ==> events[n].title == titles(events[n].key)
  }

  predicate Titled(c: Contents, titles: string -> string) {
    forall name :: name in c ==> name.1 == titles(name.0)
  }

  lemma StepKeepsTitled(c: Contents, d: Contents, limit: nat, e: Event, titles: string -> string)
    requires limit >= 1 && Steps(c, d, limit, e) && Titled(c, titles) && |c| <= limit
    requires e.Store? ==> e.title == titles(e.key)
    ensures Titled(d, titles) && |d| <= limit
  {
    match e
    case Store(key, title, r) =>
      LimitExactly(c, d, limit, key, title, r);
      if !Absent(c, key) {
        var a :| (key, a) in c;
        assert a == title;
      }
    case Remove(key, title) =>
      assert d.Keys <= c.Keys;
      SubsetSize(d.Keys, c.Keys);
  }

  // With one title for each key the limit holds in every reachable state.
  lemma {:induction false} LimitHolds(states: seq<Contents>, events: seq<Event>, limit: nat,
      titles: string -> string, n: nat)
    requires limit >= 1 && Run(states, events, limit) && OneTitle(events, titles) && n < |states|
    ensures Titled(states[n], titles) && |states[n]| <= limit
  {
    if n > 0 {
      LimitHolds(states, events, limit, titles, n - 1);
      assert Steps(states[n - 1], states[n], limit, events[n - 1]);
      hide Steps;
      StepKeepsTitled(states[n - 1], states[n], limit, events[n - 1], titles);
    }
  }

  // One step leaves the data of a record that stays alone.
  lemma StepKeepsData(c: Contents, d: Contents, limit: nat, e: Event, name: Name)
    requires Steps(c, d, limit, e) && name in c && name in d
    ensures d[name].data == c[name].data
  {
    if e.Store? && Absent(c, e.key) {
      var kept :| Evicts(c, kept, limit) && d == kept[(e.key, e.title) := e.record];
      assert name != (e.key, e.title);
    }
  }

  // While a title stays in the tables its data is that of the store that brought it in.
  lemma {:induction false} FirstDataStays(states: seq<Contents>, events: seq<Event>, limit: nat, name: Name, m: nat,
      n: nat)
    requires Run(states, events, limit) && 0 < m <= n < |states|
    requires name !in states[m - 1] && forall k :: m <= k <= n ==> name in states[k]
    ensures var e := events[m - 1];
            e.Store? && name == (e.key, e.title) && states[n][name].data == e.record.data
  {
    if n > m {
      FirstDataStays(states, events, limit, name, m, n - 1);
      StepKeepsData(states[n - 1], states[n], limit, events[n - 1], name);
    } else {
      assert Steps(states[m - 1], states[m], limit, events[m - 1]);
    }
  }

  lemma StepKeepsNewest(c: Contents, d: Contents, limit: nat, e: Event, titles: string -> string, name: Name)
    requires Steps(c, d, limit, e) && Titled(c, titles) && name in d
    requires e.Store? ==> e.title == titles(e.key)
    ensures name in c ==> d[name].time >= c[name].time
    ensures e.Store? && name == (e.key, e.title) ==> d[name].time >= e.record.time
  {
    if e.Store? && Absent(c, e.key) {
      var kept :| Evicts(c, kept, limit) && d == kept[(e.key, e.title) := e.record];
    } else if e.Store? {
      var a :| (e.key, a) in c;
      assert a == e.title;
      var b :| (e.key, b) in c && d == Renewed(c, e.key, e.title, e.record, c[(e.key, b)].time);
      assert (e.key, b).1 == e.title;
    }
  }

  // With one title for each key, a record that stays has the newest of the times it was stored with.
  lemma {:induction false} NewestTimeStays(states: seq<Contents>, events: seq<Event>, limit: nat,
      titles: string -> string,
                                           name: Name, m: nat, n: nat)
    requires limit >= 1 && Run(states, events, limit) && OneTitle(events, titles) && m < n < |states|
    requires events[m].Store? && name == (events[m].key, events[m].title)
    requires forall k :: m < k <= n ==> name in states[k]
    ensures states[n][name].time >= events[m].record.time
  {
    LimitHolds(states, events, limit, titles, n - 1);
    StepKeepsNewest(states[n - 1], states[n], limit, events[n - 1], titles, name);
    if n > m + 1 {
      NewestTimeStays(states, events, limit, titles, name, m, n - 1);
    }
  }

  predicate IsStoreOf(e: Event, name: Name) {
    e.Store? && name == (e.key, e.title)
  }

  // With one title for each key a store renews its record exactly when its time is later.
  lemma StepRenewsExactly(c: Contents, d: Contents, limit: nat, e: Event, titles: string -> string, name: Name)
    requires Steps(c, d, limit, e) && Titled(c, titles) && name in c && name in d
    requires e.Store? ==> e.title == titles(e.key)
    ensures d[name] == if IsStoreOf(e, name) && c[name].time < e.record.time
                       then Record(e.record.time, e.record.ttl, c[name].data) else c[name]
  {
    if e.Store? && Absent(c, e.key) {
      var kept :| Evicts(c, kept, limit) && d == kept[(e.key, e.title) := e.record];
    } else if e.Store? {
      var a :| (e.key, a) in c;
      assert a == e.title;
      var b :| (e.key, b) in c && d == Renewed(c, e.key, e.title, e.record, c[(e.key, b)].time);
      assert (e.key, b).1 == e.title;
    }
  }

  // Event j is the first of the stores of the name from event m on that has their newest time.
  ghost predicate FirstNewest(events: seq<Event>, name: Name, m: nat, n: nat, j: nat)
    requires n <= |events|
  {
    && m <= j < n && IsStoreOf(events[j], name)
    && forall i :: m <= i < n && IsStoreOf(events[i], name)
         ==> events[i].record.time <= events[j].record.time
             && (i < j ==> events[i].record.time < events[j].record.time)
  }

  // So a record that stays has the time and the lifetime of the first of those stores.
  lemma {:induction false} FirstNewestStays(states: seq<Contents>, events: seq<Event>, limit: nat,
      titles: string -> string, name: Name, m: nat, n: nat) returns (j: nat)
    requires limit >= 1 && Run(states, events, limit) && OneTitle(events, titles) && 0 < m <= n < |states|
    requires name !in states[m - 1] && forall k :: m <= k <= n ==> name in states[k]
    ensures FirstNewest(events, name, m - 1, n, j)
    ensures states[n][name].time == events[j].record.time && states[n][name].ttl == events[j].record.ttl
  {
    hide Steps, Titled, FirstNewest, OneTitle;
    StepOf(states, events, limit, n - 1);
    if n == m {
      FirstComes(states[m - 1], states[m], limit, events[m - 1], name);
      FirstIsNewest(events, name, m - 1);
      j := m - 1;
    } else {
      j := FirstNewestStays(states, events, limit, titles, name, m, n - 1);
      LimitHolds(states, events, limit, titles, n - 1);
      TitleOf(events, titles, n - 1);
      StepRenewsExactly(states[n - 1], states[n], limit, events[n - 1], titles, name);
      j := NewestNow(events, name, m - 1, n - 1, j);
    }
  }

  lemma TitleOf(events: seq<Event>, titles: string -> string, n: nat)
    requires OneTitle(events, titles) && n < |events|
    ensures events[n].Store? ==> events[n].title == titles(events[n].key)
  {
  }

  lemma StepOf(states: seq<Contents>, events: seq<Event>, limit: nat, n: nat)
    requires Run(states, events, limit) && n < |events|
    ensures Steps(states[n], states[n + 1], limit, events[n])
  {
  }

  lemma FirstComes(c: Contents, d: Contents, limit: nat, e: Event, name: Name)
    requires limit >= 1 && Steps(c, d, limit, e) && name !in c && name in d
    ensures IsStoreOf(e, name) && d[name] == e.record
  {
    if e.Store? { StoreDropsExactly(c, d, limit, e.key, e.title, e.record); }
  }

  lemma FirstIsNewest(events: seq<Event>, name: Name, m: nat)
    requires m < |events| && IsStoreOf(events[m], name)
    ensures FirstNewest(events, name, m, m + 1, m)
  {
  }

  lemma NewestNow(events: seq<Event>, name: Name, m: nat, n: nat, i: nat) returns (j: nat)
    requires n < |events| && FirstNewest(events, name, m, n, i)
    ensures FirstNewest(events, name, m, n + 1, j)
    ensures j == if IsStoreOf(events[n], name) && events[i].record.time < events[n].record.time then n else i
  {
    j := if IsStoreOf(events[n], name) && events[i].record.time < events[n].record.time then n else i;
  }

  // With any titles it has the time and the lifetime of some store of it since it came.
  lemma {:induction false} TimeIsOfSomeStore(states: seq<Contents>, events: seq<Event>, limit: nat, name: Name,
      m: nat, n: nat) returns (j: nat)
    requires limit >= 1 && Run(states, events, limit) && 0 < m <= n < |states|
    requires name !in states[m - 1] && forall k :: m <= k <= n ==> name in states[k]
    ensures m - 1 <= j < n && IsStoreOf(events[j], name)
    ensures states[n][name].time == events[j].record.time && states[n][name].ttl == events[j].record.ttl
  {
    var c, d, e := states[n - 1], states[n], events[n - 1];
    assert Steps(c, d, limit, e);
    j := n - 1;
    if n > m {
      var i := TimeIsOfSomeStore(states, events, limit, name, m, n - 1);
      if d[name].time == c[name].time && d[name].ttl == c[name].ttl { j := i; }
      else { StepChangesTime(c, d, limit, e, name); }
    }
  }

  lemma StepChangesTime(c: Contents, d: Contents, limit: nat, e: Event, name: Name)
    requires limit >= 1 && Steps(c, d, limit, e) && name in c && name in d && d[name] != c[name]
    ensures IsStoreOf(e, name) && d[name].time == e.record.time && d[name].ttl == e.record.ttl
  {
    if e.Store? { StoreDropsExactly(c, d, limit, e.key, e.title, e.record); }
  }
}
