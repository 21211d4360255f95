// The table of stored records: three SQL tables, the statements on them, and what storing a
// record makes of them.
module Records {
  datatype HeaderRow = HeaderRow(id: nat, key: string, title: string)
  datatype TimeRow = TimeRow(id: nat, time: int, ttl: int)
  datatype ItemRow = ItemRow(id: nat, data: string)

  /** The tables; `nextId` is the next automatic id. */
  datatype Tables = Tables(headers: seq<HeaderRow>, times: seq<TimeRow>, items: seq<ItemRow>, nextId: nat)

  const EMPTY: Tables := Tables([], [], [], 0)

  datatype Record = Record(time: int, ttl: int, data: string)
  datatype ListingRow = ListingRow(title: string, time: int, ttl: int)
  type Name = (string, string)
  type Contents = map<Name, Record>

  // ------------------------------------------------ sequences as relations

  function Select<T>(s: seq<T>, p: T -> bool): seq<T> {
    if s == [] then [] else (if p(s[0]) then [s[0]] else []) + Select(s[1..], p)
  }

  function Map<A, B>(s: seq<A>, f: A -> B): (r: seq<B>)
    ensures |r| == |s| && forall i :: 0 <= i < |s| ==> r[i] == f(s[i])
  {
    seq(|s|, i requires 0 <= i < |s| => f(s[i]))
  }

  function Product<A, B>(a: seq<A>, b: seq<B>): seq<(A, B)> {
    if a == [] then [] else Map(b, y => (a[0], y)) + Product(a[1..], b)
  }

  lemma {:induction false} SelectMembers<T>(s: seq<T>, p: T -> bool, x: T)
    ensures x in Select(s, p) <==> x in s && p(x)
  {
    if s != [] {
      SelectMembers(s[1..], p, x);
      assert s == [s[0]] + s[1..];
    }
  }

  lemma {:induction false} SelectConcat<T>(s: seq<T>, t: seq<T>, p: T -> bool)
    ensures Select(s + t, p) == Select(s, p) + Select(t, p)
  {
    if s == [] {
      assert s + t == t;
    } else {
      var head := if p(s[0]) then [s[0]] else [];
      assert (s + t)[1..] == s[1..] + t;
      SelectConcat(s[1..], t, p);
      assert head + (Select(s[1..], p) + Select(t, p)) == (head + Select(s[1..], p)) + Select(t, p);
    }
  }

  // Selecting and projecting commute.
  lemma {:induction false} SelectMap<A, B>(s: seq<A>, f: A -> B, p: B -> bool, q: A -> bool)
    requires forall x :: x in s ==> p(f(x)) == q(x)
    ensures Select(Map(s, f), p) == Map(Select(s, q), f)
  {
    if s != [] {
      assert Map(s, f)[1..] == Map(s[1..], f);
      SelectMap(s[1..], f, p, q);
      assert s[0] in s;
    }
  }

  lemma {:induction false} ProductMembers<A, B>(a: seq<A>, b: seq<B>, x: A, y: B)
    ensures (x, y) in Product(a, b) <==> x in a && y in b
  {
    if a != [] {
      ProductMembers(a[1..], b, x, y);
      var head := Map(b, z => (a[0], z));
      assert a == [a[0]] + a[1..];
      if x == a[0] && y in b {
        var i :| 0 <= i < |b| && b[i] == y;
        assert head[i] == (x, y);
      }
    }
  }

  // ------------------------------------------------------- the statements

  function Ids(headers: seq<HeaderRow>, key: string, title: string): seq<nat> {
    Map(Select(headers, (h: HeaderRow) => h.key == key && h.title == title), (h: HeaderRow) => h.id)
  }

  // The child rows are inserted for every header of that key and title.
  function Inserted(t: Tables, key: string, title: string, r: Record): Tables {
    var headers := t.headers + [HeaderRow(t.nextId, key, title)];
    var ids := Ids(headers, key, title);
    Tables(
      headers,
      t.times + Map(ids, id => TimeRow(id, r.time, r.ttl)),
      t.items + Map(ids, id => ItemRow(id, r.data)),
      t.nextId + 1)
  }

  // Deleting headers deletes the rows that refer to them.
  function Without(t: Tables, gone: seq<nat>): Tables {
    Tables(
      Select(t.headers, (h: HeaderRow) => h.id !in gone),
      Select(t.times, (r: TimeRow) => r.id !in gone),
      Select(t.items, (r: ItemRow) => r.id !in gone),
      t.nextId)
  }

  function Updated(t: Tables, key: string, title: string, time: int, ttl: int): Tables {
    t.(times := Map(t.times, (r: TimeRow) =>
        if r.id in Ids(t.headers, key, title) then TimeRow(r.id, time, ttl) else r))
  }

  function OfKey(headers: seq<HeaderRow>, key: string): seq<HeaderRow> {
    Select(headers, (h: HeaderRow) => h.key == key)
  }

  function TimesOfKey(t: Tables, key: string): seq<TimeRow> {
    var ids := Map(OfKey(t.headers, key), (h: HeaderRow) => h.id);
    Select(t.times, (r: TimeRow) => r.id in ids)
  }

  // The query joins the headers of the key, the times of the key and all items, unconditionally.
  function Listing(t: Tables, key: string): seq<ListingRow> {
    Map(Product(Product(OfKey(t.headers, key), TimesOfKey(t, key)), t.items),
        (p: ((HeaderRow, TimeRow), ItemRow)) => ListingRow(p.0.0.title, p.0.1.time, p.0.1.ttl))
  }

  // ------------------------------------------ tables that hold whole records

  /** One record with its id: a row of the join of the three tables. */
  datatype Entry = Entry(id: nat, key: string, title: string, record: Record) {
    function Name(): Name { (key, title) }
    function Header(): HeaderRow { HeaderRow(id, key, title) }
    function Time(): TimeRow { TimeRow(id, record.time, record.ttl) }
    function Item(): ItemRow { ItemRow(id, record.data) }
  }

  function Split(l: seq<Entry>, nextId: nat): Tables {
    Tables(
      Map(l, (e: Entry) => e.Header()), Map(l, (e: Entry) => e.Time()), Map(l, (e: Entry) => e.Item()), nextId)
  }

  function Joined(t: Tables): seq<Entry>
    requires |t.times| == |t.headers| && |t.items| == |t.headers|
  {
    seq(|t.headers|, i requires 0 <= i < |t.headers| =>
      Entry(t.headers[i].id, t.headers[i].key, t.headers[i].title,
            Record(t.times[i].time, t.times[i].ttl, t.items[i].data)))
  }

  predicate Distinct(l: seq<Entry>) {
    forall i, j :: 0 <= i < j < |l| ==> l[i].id != l[j].id && l[i].Name() != l[j].Name()
  }

  // Ids and names are unique, and every header has exactly one time row and one item row.
  predicate Whole(t: Tables) {
    && |t.times| == |t.headers|
    && |t.items| == |t.headers|
    && t == Split(Joined(t), t.nextId)
    && Distinct(Joined(t))
    && (forall i :: 0 <= i < |t.headers| ==> t.headers[i].id < t.nextId)
  }

  lemma DistinctMembers(l: seq<Entry>)
    requires Distinct(l)
    ensures forall d, e :: d in l && e in l && (d.id == e.id || d.Name() == e.Name()) ==> d == e
  {
  }

  ghost function Held(l: seq<Entry>): Contents
    requires Distinct(l)
  {
    DistinctMembers(l);
    map e | e in l :: e.Name() := e.record
  }

  // What the tables hold: a record for each key and title.
  ghost function Holds(t: Tables): Contents
    requires Whole(t)
  {
    Held(Joined(t))
  }

  lemma JoinedSplit(l: seq<Entry>, nextId: nat)
    requires Distinct(l) && forall e :: e in l ==> e.id < nextId
    ensures Joined(Split(l, nextId)) == l && Whole(Split(l, nextId))
  {
    var t := Split(l, nextId);
    assert Joined(t) == l;
    forall i | 0 <= i < |l| ensures t.headers[i].id < nextId { assert l[i] in l; }
  }

  lemma HeldAppend(l: seq<Entry>, e: Entry)
    requires Distinct(l) && Held(l).Keys !! {e.Name()} && forall d :: d in l ==> d.id != e.id
    ensures Distinct(l + [e]) && Held(l + [e]) == Held(l)[e.Name() := e.record]
  {
    assert forall d :: d in l ==> d.Name() in Held(l);
  }

  lemma {:induction false} SizeOfHeld(l: seq<Entry>)
    requires Distinct(l)
    ensures |Held(l)| == |l|
  {
    if l == [] {
      assert Held(l) == map[];
    } else {
      var (m, e) := (l[..|l| - 1], l[|l| - 1]);
      SizeOfHeld(m);
      assert l == m + [e];
      HeldAppend(m, e);
    }
  }

  // ---------------------------------------- what each statement does to them

  lemma {:induction false} SelectNone<T>(s: seq<T>, p: T -> bool)
    requires forall x :: x in s ==> !p(x)
    ensures Select(s, p) == []
  {
    if s != [] {
      assert s[0] in s;
      SelectNone(s[1..], p);
    }
  }

  lemma NewIds(t: Tables, key: string, title: string)
    requires forall h :: h in t.headers ==> (h.key, h.title) != (key, title)
    ensures Ids(t.headers + [HeaderRow(t.nextId, key, title)], key, title) == [t.nextId]
  {
    var p := (h: HeaderRow) => h.key == key && h.title == title;
    SelectConcat(t.headers, [HeaderRow(t.nextId, key, title)], p);
    SelectNone(t.headers, p);
  }

  // Inserting a record of a new name adds it and touches no other.
  lemma InsertAdds(t: Tables, key: string, title: string, r: Record)
    requires Whole(t) && (key, title) !in Holds(t)
    ensures Whole(Inserted(t, key, title, r))
    ensures Holds(Inserted(t, key, title, r)) == Holds(t)[(key, title) := r]
  {
    var (l, e) := (Joined(t), Entry(t.nextId, key, title, r));
    forall h | h in t.headers ensures (h.key, h.title) != (key, title) {
      var i :| 0 <= i < |t.headers| && t.headers[i] == h;
      assert l[i].Name() in Held(l);
    }
    InsertSplits(t, key, title, r);
    HeldAppend(l, e);
    JoinedSplit(l + [e], t.nextId + 1);
  }

  lemma InsertSplits(t: Tables, key: string, title: string, r: Record)
    requires Whole(t) && forall h :: h in t.headers ==> (h.key, h.title) != (key, title)
    ensures Inserted(t, key, title, r) == Split(Joined(t) + [Entry(t.nextId, key, title, r)], t.nextId + 1)
  {
    NewIds(t, key, title);
  }

  lemma SelectOne<T>(s: seq<T>, p: T -> bool, i: nat)
    requires i < |s| && p(s[i]) && forall j :: 0 <= j < |s| && j != i ==> !p(s[j])
    ensures Select(s, p) == [s[i]]
  {
    assert s == s[..i] + ([s[i]] + s[i + 1..]);
    SelectConcat(s[..i], [s[i]] + s[i + 1..], p);
    SelectConcat([s[i]], s[i + 1..], p);
    SelectNone(s[..i], p);
    SelectNone(s[i + 1..], p);
    assert Select([s[i]], p) == [s[i]];
  }

  // Inserting a name that is there already gives rows to both of its headers, so the tables hold
  // whole records no more.
  lemma InsertAgain(t: Tables, key: string, title: string, r: Record)
    requires Whole(t) && (key, title) in Holds(t)
    ensures var u := Inserted(t, key, title, r);
            && |u.headers| == |t.headers| + 1 && |u.times| == |t.times| + 2 && |u.items| == |t.items| + 2
            && !Whole(u)
  {
    var i := RowsOf(t, (key, title));
    var p := (h: HeaderRow) => h.key == key && h.title == title;
    var l := Joined(t);
    forall j | 0 <= j < |t.headers| && j != i ensures !p(t.headers[j]) {
      assert l[j].Name() != l[i].Name();
    }
    SelectOne(t.headers, p, i);
    SelectConcat(t.headers, [HeaderRow(t.nextId, key, title)], p);
  }

  lemma {:induction false} SelectDistinct(l: seq<Entry>, p: Entry -> bool)
    requires Distinct(l)
    ensures Distinct(Select(l, p))
  {
    if l != [] {
      SelectDistinct(l[1..], p);
      forall e | e in Select(l[1..], p) ensures e.id != l[0].id && e.Name() != l[0].Name() {
        SelectMembers(l[1..], p, e);
      }
    }
  }

  lemma WithoutSplits(t: Tables, gone: seq<nat>, p: Entry -> bool)
    requires Whole(t) && forall e :: e in Joined(t) ==> p(e) == (e.id !in gone)
    ensures Without(t, gone) == Split(Select(Joined(t), p), t.nextId)
  {
    var l := Joined(t);
    SelectMap(l, (e: Entry) => e.Header(), (h: HeaderRow) => h.id !in gone, p);
    SelectMap(l, (e: Entry) => e.Time(), (r: TimeRow) => r.id !in gone, p);
    SelectMap(l, (e: Entry) => e.Item(), (r: ItemRow) => r.id !in gone, p);
  }

  // Deleting the headers of some names deletes those records, child rows and all, and no other.
  lemma WithoutDrops(t: Tables, gone: seq<nat>, names: set<Name>)
    requires Whole(t) && forall e :: e in Joined(t) ==> (e.id in gone <==> e.Name() in names)
    ensures Whole(Without(t, gone)) && Holds(Without(t, gone)) == Holds(t) - names
  {
    var l := Joined(t);
    var p := (e: Entry) => e.id !in gone;
    var m := Select(l, p);
    WithoutSplits(t, gone, p);
    SelectDistinct(l, p);
    forall e ensures e in m <==> e in l && p(e) { SelectMembers(l, p, e); }
    JoinedSplit(m, t.nextId);
    HeldWithout(l, m, names);
  }

  lemma HeldWithout(l: seq<Entry>, m: seq<Entry>, names: set<Name>)
    requires Distinct(l) && Distinct(m) && forall e :: e in m <==> e in l && e.Name() !in names
    ensures Held(m) == Held(l) - names
  {
  }

  lemma IdsAreOfName(t: Tables, key: string, title: string, e: Entry)
    requires Whole(t) && e in Joined(t)
    ensures e.id in Ids(t.headers, key, title) <==> e.Name() == (key, title)
  {
    var l := Joined(t);
    var i :| 0 <= i < |l| && l[i] == e;
    if e.Name() == (key, title) { IdsContain(t.headers, key, title, i); }
    if e.id in Ids(t.headers, key, title) {
      var j := IdsComeFrom(t.headers, key, title, e.id);
      assert l[j].id == l[i].id;
    }
  }

  lemma IdsContain(headers: seq<HeaderRow>, key: string, title: string, i: nat)
    requires i < |headers| && headers[i].key == key && headers[i].title == title
    ensures headers[i].id in Ids(headers, key, title)
  {
    var p := (h: HeaderRow) => h.key == key && h.title == title;
    var found := Select(headers, p);
    SelectMembers(headers, p, headers[i]);
    var k :| 0 <= k < |found| && found[k] == headers[i];
    assert Ids(headers, key, title)[k] == headers[i].id;
  }

  lemma IdsComeFrom(headers: seq<HeaderRow>, key: string, title: string, id: nat) returns (j: nat)
    requires id in Ids(headers, key, title)
    ensures j < |headers| && headers[j].id == id && headers[j].key == key && headers[j].title == title
  {
    var p := (h: HeaderRow) => h.key == key && h.title == title;
    var found := Select(headers, p);
    var k :| 0 <= k < |found| && found[k].id == id;
    SelectMembers(headers, p, found[k]);
    j :| 0 <= j < |headers| && headers[j] == found[k];
  }

  lemma IdsOfName(t: Tables, key: string, title: string)
    requires Whole(t)
    ensures forall e :: e in Joined(t) ==> (e.id in Ids(t.headers, key, title) <==> e.Name() == (key, title))
  {
    forall e | e in Joined(t) ensures e.id in Ids(t.headers, key, title) <==> e.Name() == (key, title) {
      IdsAreOfName(t, key, title, e);
    }
  }

  lemma RemoveDrops(t: Tables, key: string, title: string)
    requires Whole(t)
    ensures var u := Without(t, Ids(t.headers, key, title)); Whole(u) && Holds(u) == Holds(t) - {(key, title)}
  {
    IdsOfName(t, key, title);
    WithoutDrops(t, Ids(t.headers, key, title), {(key, title)});
  }

  lemma EvictDrops(t: Tables, i: nat)
    requires Whole(t) && i < |t.headers|
    ensures var u := Without(t, [t.headers[i].id]);
            var name := (t.headers[i].key, t.headers[i].title);
            Whole(u) && name in Holds(t) && Holds(u) == Holds(t) - {name}
  {
    var e := Joined(t)[i];
    assert e in Joined(t);
    DistinctMembers(Joined(t));
    WithoutDrops(t, [e.id], {e.Name()});
  }

  // The effect of `remove_oldest`. Its query has no join condition: any header can come first,
  // if there is any time row.
  ghost predicate OldestDropped(t: Tables, u: Tables) {
    if t.headers == [] || t.times == [] then u == t
    else exists i :: 0 <= i < |t.headers| && u == Without(t, [t.headers[i].id])
  }

  lemma EvictionShrinks(t: Tables, u: Tables)
    requires Whole(t) && t.headers != [] && OldestDropped(t, u)
    ensures Whole(u) && |Holds(u)| == |Holds(t)| - 1
    ensures forall name :: name in Holds(u) ==> name in Holds(t) && Holds(u)[name] == Holds(t)[name]
  {
    var i :| 0 <= i < |t.headers| && u == Without(t, [t.headers[i].id]);
    EvictDrops(t, i);
    DropOne(Holds(t), (t.headers[i].key, t.headers[i].title));
  }

  lemma DropOne(c: Contents, name: Name)
    requires name in c
    ensures |c - {name}| == |c| - 1
    ensures forall other :: other in c - {name} ==> other in c && (c - {name})[other] == c[other]
  {
    assert (c - {name}).Keys == c.Keys - {name};
  }

  // With a limit of at least one every pass of the loop that makes room drops one record. With
  // a limit of zero the loop comes to the empty tables and stays there.
  lemma EvictionProgress(t: Tables, u: Tables, limit: nat)
    requires Whole(t) && |t.headers| >= limit && OldestDropped(t, u)
    ensures limit >= 1 || t.headers != [] ==> Whole(u) && |u.headers| == |t.headers| - 1
    ensures limit == 0 && t.headers == [] ==> u == t
  {
    if t.headers != [] {
      EvictionShrinks(t, u);
      SizeCounts(t);
      SizeCounts(u);
    }
  }

  function Retimed(e: Entry, name: Name, time: int, ttl: int): Entry {
    if e.Name() == name then e.(record := Record(time, ttl, e.record.data)) else e
  }

  function RetimedAll(l: seq<Entry>, name: Name, time: int, ttl: int): seq<Entry> {
    Map(l, e => Retimed(e, name, time, ttl))
  }

  // Updating a name changes the time and lifetime of that record and keeps its data.
  lemma UpdateChanges(t: Tables, key: string, title: string, time: int, ttl: int)
    requires Whole(t) && (key, title) in Holds(t)
    ensures var u := Updated(t, key, title, time, ttl);
            Whole(u) && Holds(u) == Holds(t)[(key, title) := Record(time, ttl, Holds(t)[(key, title)].data)]
  {
    hide Updated, Ids, Held, Retimed;
    var l, m := Joined(t), RetimedAll(Joined(t), (key, title), time, ttl);
    UpdateSplits(t, key, title, time, ttl);
    RetimedSame(l, (key, title), time, ttl, t.nextId);
    JoinedSplit(m, t.nextId);
    HeldRetimed(l, (key, title), time, ttl);
  }

  lemma RetimedSame(l: seq<Entry>, name: Name, time: int, ttl: int, nextId: nat)
    requires Distinct(l) && forall i :: 0 <= i < |l| ==> l[i].id < nextId
    ensures var m := RetimedAll(l, name, time, ttl); Distinct(m) && forall e :: e in m ==> e.id < nextId
  {
    var m := RetimedAll(l, name, time, ttl);
    assert forall i :: 0 <= i < |l| ==> m[i].id == l[i].id && m[i].Name() == l[i].Name();
  }

  lemma UpdateSplits(t: Tables, key: string, title: string, time: int, ttl: int)
    requires Whole(t)
    ensures Updated(t, key, title, time, ttl) == Split(RetimedAll(Joined(t), (key, title), time, ttl), t.nextId)
  {
    var l := Joined(t);
    IdsOfName(t, key, title);
    forall i | 0 <= i < |l| ensures t.times[i].id in Ids(t.headers, key, title) <==> l[i].Name() == (key, title) {
      assert l[i] in l;
    }
  }

  lemma RetimedMembers(l: seq<Entry>, name: Name, time: int, ttl: int, d: Entry)
    ensures d in RetimedAll(l, name, time, ttl) <==> exists c :: c in l && d == Retimed(c, name, time, ttl)
  {
    var m := RetimedAll(l, name, time, ttl);
    if c :| c in l && d == Retimed(c, name, time, ttl) {
      var i :| 0 <= i < |l| && l[i] == c;
      assert m[i] == d;
    }
    if d in m {
      var i :| 0 <= i < |m| && m[i] == d;
      assert l[i] in l;
    }
  }

  lemma HeldRetimed(l: seq<Entry>, name: Name, time: int, ttl: int)
    requires Distinct(l) && Distinct(RetimedAll(l, name, time, ttl)) && name in Held(l)
    ensures Held(RetimedAll(l, name, time, ttl)) == Held(l)[name := Record(time, ttl, Held(l)[name].data)]
  {
    hide Held, RetimedAll, Distinct;
    var m := RetimedAll(l, name, time, ttl);
    forall other ensures other in Held(m) <==> other in Held(l) {
      HeldRetimedAt(l, name, time, ttl, other);
    }
    forall other | other in Held(l)
      ensures Held(m)[other] == if other == name then Record(time, ttl, Held(l)[name].data) else Held(l)[other]
    {
      HeldRetimedAt(l, name, time, ttl, other);
    }
  }

  lemma HeldIs(l: seq<Entry>, e: Entry)
    requires Distinct(l) && e in l
    ensures e.Name() in Held(l) && Held(l)[e.Name()] == e.record
  {
  }

  lemma HolderOf(l: seq<Entry>, name: Name) returns (e: Entry)
    requires Distinct(l) && name in Held(l)
    ensures e in l && e.Name() == name && Held(l)[name] == e.record
  {
    e :| e in l && e.Name() == name;
  }

  lemma HeldRetimedAt(l: seq<Entry>, name: Name, time: int, ttl: int, other: Name)
    requires Distinct(l) && Distinct(RetimedAll(l, name, time, ttl))
    ensures var m := RetimedAll(l, name, time, ttl);
            && (other in Held(m) <==> other in Held(l))
            && (other in Held(l) && other != name ==> Held(m)[other] == Held(l)[other])
            && (other in Held(l) && other == name ==> Held(m)[other] == Record(time, ttl, Held(l)[name].data))
  {
    hide Held, Distinct, RetimedAll;
    var m := RetimedAll(l, name, time, ttl);
    if other in Held(l) {
      var e := HolderOf(l, other);
      RetimedMembers(l, name, time, ttl, Retimed(e, name, time, ttl));
      HeldIs(m, Retimed(e, name, time, ttl));
    }
    if other in Held(m) {
      var d := HolderOf(m, other);
      RetimedMembers(l, name, time, ttl, d);
      var c :| c in l && d == Retimed(c, name, time, ttl);
      HeldIs(l, c);
    }
  }

  // ------------------------------------------------- what each query answers

  lemma SizeCounts(t: Tables)
    requires Whole(t)
    ensures |t.headers| == |Holds(t)|
  {
    SizeOfHeld(Joined(t));
  }

  lemma HeadersOfKey(t: Tables, key: string, i: nat)
    requires Whole(t) && i < |t.headers|
    ensures t.headers[i] in OfKey(t.headers, key) <==> t.headers[i].key == key
  {
    SelectMembers(t.headers, (h: HeaderRow) => h.key == key, t.headers[i]);
  }

  lemma HeaderIsHeld(t: Tables, key: string, h: HeaderRow)
    requires Whole(t) && h in OfKey(t.headers, key)
    ensures (key, h.title) in Holds(t)
  {
    SelectMembers(t.headers, (x: HeaderRow) => x.key == key, h);
    var i :| 0 <= i < |t.headers| && t.headers[i] == h;
    HeldAt(t, i);
  }

  lemma HeldAt(t: Tables, i: nat)
    requires Whole(t) && i < |t.headers|
    ensures var name := (t.headers[i].key, t.headers[i].title);
            name in Holds(t) && Holds(t)[name] == Record(t.times[i].time, t.times[i].ttl, t.items[i].data)
  {
    assert Joined(t)[i] in Joined(t);
  }

  // The rows of a record that the tables hold.
  lemma RowsOf(t: Tables, name: Name) returns (i: nat)
    requires Whole(t) && name in Holds(t)
    ensures i < |t.headers| && (t.headers[i].key, t.headers[i].title) == name
    ensures Holds(t)[name] == Record(t.times[i].time, t.times[i].ttl, t.items[i].data)
  {
    var l := Joined(t);
    var e :| e in l && e.Name() == name;
    i :| 0 <= i < |l| && l[i] == e;
  }

  // The count of a key is zero exactly when no record has it.
  lemma CountFinds(t: Tables, key: string)
    requires Whole(t)
    ensures OfKey(t.headers, key) == [] <==> forall title :: (key, title) !in Holds(t)
  {
    forall title | (key, title) in Holds(t) ensures OfKey(t.headers, key) != [] {
      var i := RowsOf(t, (key, title));
      HeadersOfKey(t, key, i);
    }
    if OfKey(t.headers, key) != [] {
      HeaderIsHeld(t, key, OfKey(t.headers, key)[0]);
    }
  }

  // A listed row pairs any title of the key with the time and lifetime of any record of the key.
  ghost predicate Listed(c: Contents, key: string, row: ListingRow) {
    (key, row.title) in c && exists b :: (key, b) in c && Timed(c[(key, b)], row)
  }

  predicate Timed(r: Record, row: ListingRow) {
    r.time == row.time && r.ttl == row.ttl
  }

  lemma TimesAreOfKey(t: Tables, key: string, i: nat)
    requires Whole(t) && i < |t.headers|
    ensures t.times[i] in TimesOfKey(t, key) <==> t.headers[i].key == key
  {
    var found := OfKey(t.headers, key);
    var ids := Map(found, (h: HeaderRow) => h.id);
    SelectMembers(t.times, (r: TimeRow) => r.id in ids, t.times[i]);
    HeadersOfKey(t, key, i);
    assert t.times[i].id == Joined(t)[i].id == t.headers[i].id;
    if t.headers[i].key == key {
      var k :| 0 <= k < |found| && found[k] == t.headers[i];
      assert ids[k] == t.headers[i].id;
    }
    if t.headers[i].id in ids {
      var k :| 0 <= k < |ids| && ids[k] == t.headers[i].id;
      SelectMembers(t.headers, (h: HeaderRow) => h.key == key, found[k]);
      var j :| 0 <= j < |t.headers| && t.headers[j] == found[k];
      assert Joined(t)[j].id == Joined(t)[i].id;
    }
  }

  lemma ListedRow(t: Tables, key: string, row: ListingRow)
    requires Whole(t) && row in Listing(t, key)
    ensures Listed(Holds(t), key, row)
  {
    var l := Joined(t);
    var pairs := Product(Product(OfKey(t.headers, key), TimesOfKey(t, key)), t.items);
    var k :| 0 <= k < |pairs| && row == ListingRow(pairs[k].0.0.title, pairs[k].0.1.time, pairs[k].0.1.ttl);
    var (h, r, item) := (pairs[k].0.0, pairs[k].0.1, pairs[k].1);
    assert pairs[k] == ((h, r), item);
    ProductMembers(Product(OfKey(t.headers, key), TimesOfKey(t, key)), t.items, (h, r), item);
    ProductMembers(OfKey(t.headers, key), TimesOfKey(t, key), h, r);
    HeaderIsHeld(t, key, h);
    TimeIsHeld(t, key, r, row);
  }

  lemma TimeIsHeld(t: Tables, key: string, r: TimeRow, row: ListingRow)
    requires Whole(t) && r in TimesOfKey(t, key) && row.time == r.time && row.ttl == r.ttl
    ensures exists b :: (key, b) in Holds(t) && Timed(Holds(t)[(key, b)], row)
  {
    var ids := Map(OfKey(t.headers, key), (h: HeaderRow) => h.id);
    SelectMembers(t.times, (x: TimeRow) => x.id in ids, r);
    var i :| 0 <= i < |t.times| && t.times[i] == r;
    TimesAreOfKey(t, key, i);
    HeldAt(t, i);
    assert (key, t.headers[i].title) in Holds(t) && Timed(Holds(t)[(key, t.headers[i].title)], row);
  }

  // Every title of the key is listed.
  lemma TitleIsListed(t: Tables, key: string, title: string)
    requires Whole(t) && (key, title) in Holds(t)
    ensures exists row :: row in Listing(t, key) && row.title == title
  {
    var i := RowsOf(t, (key, title));
    HeadersOfKey(t, key, i);
    TimesAreOfKey(t, key, i);
    ListedPair(t, key, t.headers[i], t.times[i]);
  }

  lemma ListedPair(t: Tables, key: string, h: HeaderRow, r: TimeRow)
    requires h in OfKey(t.headers, key) && r in TimesOfKey(t, key) && t.items != []
    ensures ListingRow(h.title, r.time, r.ttl) in Listing(t, key)
  {
    var pairs := Product(Product(OfKey(t.headers, key), TimesOfKey(t, key)), t.items);
    ProductMembers(OfKey(t.headers, key), TimesOfKey(t, key), h, r);
    ProductMembers(Product(OfKey(t.headers, key), TimesOfKey(t, key)), t.items, (h, r), t.items[0]);
    var k :| 0 <= k < |pairs| && pairs[k] == ((h, r), t.items[0]);
    assert Listing(t, key)[k] == ListingRow(h.title, r.time, r.ttl);
  }

  // What is listed for a key is every title of the key with the time of every record of the key.
  lemma ListedExactly(t: Tables, key: string, row: ListingRow)
    requires Whole(t)
    ensures row in Listing(t, key) <==> Listed(Holds(t), key, row)
  {
    if row in Listing(t, key) { ListedRow(t, key, row); }
    if Listed(Holds(t), key, row) {
      var b :| (key, b) in Holds(t) && Timed(Holds(t)[(key, b)], row);
      var i := RowsOf(t, (key, row.title));
      var j := RowsOf(t, (key, b));
      HeadersOfKey(t, key, i);
      TimesAreOfKey(t, key, j);
      ListedPair(t, key, t.headers[i], t.times[j]);
    }
  }

  // ------------------------------------------------------------ the class

  // Some of the records, as they were.
  ghost predicate Kept(c: Contents, d: Contents) {
    forall name :: name in d ==> name in c && d[name] == c[name]
  }

  // Some records are dropped so that one more fits.
  ghost predicate Evicts(c: Contents, d: Contents, limit: nat) {
    && Kept(c, d)
    && |d| == if |c| < limit then |c| else limit - 1
  }

  // One pass of the loop that makes room.
  lemma OneLess(c: Contents, t: Tables, u: Tables)
    requires Whole(t) && t.headers != [] && OldestDropped(t, u) && Kept(c, Holds(t))
    ensures Whole(u) && Kept(c, Holds(u)) && |u.headers| == |Holds(u)| == |t.headers| - 1
  {
    EvictionShrinks(t, u);
    SizeCounts(t);
    SizeCounts(u);
  }

  class Storage {
    var headers: seq<HeaderRow>
    var times: seq<TimeRow>
    var items: seq<ItemRow>
    var nextId: nat

    function Model(): Tables
      reads this
    {
      Tables(headers, times, items, nextId)
    }

    ghost predicate Valid()
      reads this
    {
      Whole(Model())
    }

    constructor ()
      ensures Valid() && Holds(Model()) == map[]
    {
      headers, times, items, nextId := [], [], [], 0;
    }

    method Count(key: string) returns (n: nat)
      ensures n == |OfKey(headers, key)|
    {
      n := |OfKey(headers, key)|;
    }

    method Size() returns (n: nat)
      ensures n == |headers|
    {
      n := |headers|;
    }

    method Insert(key: string, title: string, r: Record)
      modifies this
      ensures Model() == Inserted(old(Model()), key, title, r)
    {
      headers := headers + [HeaderRow(nextId, key, title)];
      nextId := nextId + 1;
      var ids := Ids(headers, key, title);
      times := times + Map(ids, id => TimeRow(id, r.time, r.ttl));
      items := items + Map(ids, id => ItemRow(id, r.data));
    }

    method Update(key: string, title: string, time: int, ttl: int)
      modifies this
      ensures Model() == Updated(old(Model()), key, title, time, ttl)
    {
      var ids := Ids(headers, key, title);
      times := Map(times, (row: TimeRow) => if row.id in ids then TimeRow(row.id, time, ttl) else row);
    }

    method Delete(gone: seq<nat>)
      modifies this
      ensures Model() == Without(old(Model()), gone)
    {
      headers := Select(headers, (h: HeaderRow) => h.id !in gone);
      times := Select(times, (row: TimeRow) => row.id !in gone);
      items := Select(items, (row: ItemRow) => row.id !in gone);
    }

    method Remove(key: string, title: string)
      requires Valid()
      modifies this
      ensures Valid() && Holds(Model()) == old(Holds(Model())) - {(key, title)}
    {
      RemoveDrops(Model(), key, title);
      Delete(Ids(headers, key, title));
    }

    method RemoveOldest()
      modifies this
      ensures OldestDropped(old(Model()), Model())
    {
      if headers != [] && times != [] {
        var i: nat :| i < |headers|;
        Delete([headers[i].id]);
      }
    }

    // The rows come in any order.
    method FindNoBlob(key: string) returns (rows: seq<ListingRow>)
      ensures multiset(rows) == multiset(Listing(Model(), key))
    {
      rows := Listing(Model(), key);
    }

    // Make room for one record, for a limit of at least one.
    method MakeRoom(limit: nat)
      requires Valid() && limit >= 1
      modifies this
      ensures Valid() && Evicts(old(Holds(Model())), Holds(Model()), limit)
    {
      hide Whole, Holds, OldestDropped;
      ghost var t, c := Model(), Holds(Model());
      SizeCounts(t);
      var size := Size();
      while size >= limit
        invariant Model() == t && Whole(t) && size == |t.headers| == |Holds(t)|
        invariant Kept(c, Holds(t)) && (size == |c| || limit - 1 <= size < |c|)
        decreases size
      {
        RemoveOldest();
        OneLess(c, t, Model());
        t := Model();
        size := Size();
      }
    }
  }
}
