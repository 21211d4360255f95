// Which contact a full bucket gives up: the one touched least recently, and when not.
module Recency {
  import opened Wrappers
  import opened Keys
  import opened Codec
  import opened Contacts
  import opened RoutingTable

  /** One call of `add_contact`. */
  datatype Touch = Touch(key: string, ep: Endpoint, time: nat)

  function AfterTouches(local: string, h: seq<Touch>): seq<Entry> {
    if h == [] then []
    else
      var t := h[|h| - 1];
      Added(local, AfterTouches(local, h[..|h| - 1]), t.key, t.ep, t.time)
  }

  function Position(l: seq<Contact>, k: string): (n: nat)
    ensures n <= |l| && (forall i :: 0 <= i < n ==> l[i].key != k)
    ensures n < |l| ==> l[n].key == k
  {
    if l == [] || l[0].key == k then 0 else 1 + Position(l[1..], k)
  }

  // The list without its first contact with key k.
  function Without(l: seq<Contact>, k: string): seq<Contact> {
    var n := Position(l, k);
    if n < |l| then l[..n] + l[n + 1..] else l
  }

  // Reference: the contacts of bucket c, the most recently touched first.
  function Recency(local: string, h: seq<Touch>, c: nat): seq<Contact> {
    if h == [] then []
    else
      var t := h[|h| - 1];
      var earlier := Recency(local, h[..|h| - 1], c);
      if t.key == local || SharedBits(local, t.key) != c then earlier
      else [Contact(t.key, t.ep, Some(t.time))] + Without(earlier, t.key)
  }

  ghost predicate Increasing(h: seq<Touch>) {
    forall i, j :: 0 <= i < j < |h| ==> h[i].time < h[j].time
  }

  ghost predicate DistinctKeys(l: seq<Contact>) {
    forall i, j :: 0 <= i < j < |l| ==> l[i].key != l[j].key
  }

  function First(l: seq<Contact>, n: nat): seq<Contact> {
    if |l| <= n then l else l[..n]
  }

  lemma WithoutIndex(l: seq<Contact>, k: string, i: nat)
    requires i < |Without(l, k)|
    ensures i < |l| && Without(l, k)[i] == if i < Position(l, k) then l[i] else l[i + 1]
  {
    var n := Position(l, k);
    hide Position;
    if n < |l| { assert Without(l, k) == l[..n] + l[n + 1..]; }
  }

  lemma WithoutContents(l: seq<Contact>, k: string)
    requires DistinctKeys(l)
    ensures forall x :: x in Without(l, k) ==> x.key != k
  {
    forall x | x in Without(l, k) ensures x.key != k {
      var i :| 0 <= i < |Without(l, k)| && Without(l, k)[i] == x;
      WithoutIndex(l, k, i);
    }
  }

  lemma ConsDistinct(x: Contact, l: seq<Contact>)
    requires DistinctKeys(l) && forall y :: y in l ==> y.key != x.key
    ensures DistinctKeys([x] + l)
  {
    var r := [x] + l;
    forall i, j | 0 <= i < j < |r| ensures r[i].key != r[j].key {
      assert r[j] == l[j - 1] && l[j - 1] in l;
    }
  }

  lemma WithoutDistinct(l: seq<Contact>, k: string)
    requires DistinctKeys(l)
    ensures DistinctKeys(Without(l, k))
  {
    var r := Without(l, k);
    forall i, j | 0 <= i < j < |r| ensures r[i].key != r[j].key {
      WithoutIndex(l, k, i);
      WithoutIndex(l, k, j);
    }
  }

  lemma {:induction false} RecencyDistinct(local: string, h: seq<Touch>, c: nat)
    ensures DistinctKeys(Recency(local, h, c))
  {
    if h != [] {
      var n := |h| - 1;
      var t, l := h[n], Recency(local, h[..n], c);
      RecencyDistinct(local, h[..n], c);
      WithoutDistinct(l, t.key);
      WithoutContents(l, t.key);
      ConsDistinct(Contact(t.key, t.ep, Some(t.time)), Without(l, t.key));
    }
  }

  // Times are whole seconds, so they repeat; and a clock that is set back makes them fall.
  ghost predicate NonDecreasing(h: seq<Touch>) {
    forall i, j :: 0 <= i <= j < |h| ==> h[i].time <= h[j].time
  }

  ghost predicate NonIncreasingTimes(l: seq<Contact>) {
    forall i, j :: 0 <= i <= j < |l| ==> Stamp(l[j]) <= Stamp(l[i])
  }

  lemma WithoutSubset(l: seq<Contact>, k: string)
    ensures forall x :: x in Without(l, k) ==> x in l
  {
    var r := Without(l, k);
    forall i | 0 <= i < |r| ensures r[i] in l { WithoutIndex(l, k, i); }
  }

  lemma WithoutSettles(l: seq<Contact>, k: string)
    requires NonIncreasingTimes(l)
    ensures NonIncreasingTimes(Without(l, k))
  {
    var r := Without(l, k);
    forall i, j | 0 <= i < j < |r| ensures Stamp(r[j]) <= Stamp(r[i]) {
      WithoutIndex(l, k, i);
      WithoutIndex(l, k, j);
    }
  }

  lemma ConsSettles(x: Contact, l: seq<Contact>)
    requires NonIncreasingTimes(l) && forall y :: y in l ==> Stamp(y) <= Stamp(x)
    ensures NonIncreasingTimes([x] + l)
  {
    var r := [x] + l;
    forall i, j | 0 <= i < j < |r| ensures Stamp(r[j]) <= Stamp(r[i]) {
      assert r[j] == l[j - 1] && l[j - 1] in l;
    }
  }

  lemma {:induction false} RecencySettles(local: string, h: seq<Touch>, c: nat, now: nat)
    requires NonDecreasing(h) && forall i :: 0 <= i < |h| ==> h[i].time <= now
    ensures NonIncreasingTimes(Recency(local, h, c)) && forall x :: x in Recency(local, h, c) ==> Stamp(x) <= now
  {
    if h != [] {
      var n := |h| - 1;
      var t, l := h[n], Recency(local, h[..n], c);
      RecencySettles(local, h[..n], c, t.time);
      WithoutSettles(l, t.key);
      WithoutSubset(l, t.key);
      ConsSettles(Contact(t.key, t.ep, Some(t.time)), Without(l, t.key));
    }
  }

  lemma ElementsConcat(a: seq<Contact>, b: seq<Contact>)
    ensures Elements(a + b) == Elements(a) + Elements(b)
  {
  }

  lemma ElementsMiddle(a: seq<Contact>, x: Contact, b: seq<Contact>, y: Contact)
    requires DistinctKeys(a + [x] + b)
    ensures x in a + [x] + b && Elements(a + b) == Elements(a + [x] + b) - {x}
    ensures Elements(a + [y] + b) == Elements(a + [x] + b) - {x} + {y}
  {
    ElementsConcat(a, b);
    ElementsConcat(a + [x], b);
    ElementsConcat(a, [x]);
    ElementsConcat(a + [y], b);
    ElementsConcat(a, [y]);
    NotElsewhere(a, x, b);
  }

  lemma NotElsewhere(a: seq<Contact>, x: Contact, b: seq<Contact>)
    requires DistinctKeys(a + [x] + b)
    ensures x !in a && x !in b
  {
    var l := a + [x] + b;
    assert l[|a|] == x;
    assert forall i :: 0 <= i < |a| ==> a[i] == l[i];
    assert forall i :: 0 <= i < |b| ==> b[i] == l[|a| + 1 + i];
  }

  lemma ElementsWithout(l: seq<Contact>, p: nat)
    requires p < |l| && DistinctKeys(l)
    ensures Elements(l[..p] + l[p + 1..]) == Elements(l) - {l[p]}
  {
    assert l == l[..p] + [l[p]] + l[p + 1..];
    ElementsMiddle(l[..p], l[p], l[p + 1..], l[p]);
  }

  lemma FirstOfWithout(l: seq<Contact>, k: string, n: nat)
    ensures var p, f := Position(l, k), First(l, n + 1);
            First(Without(l, k), n) == if p <= n && p < |l| then f[..p] + f[p + 1..] else First(l, n)
  {
    var p := Position(l, k);
    if p < |l| { FirstOfRest(l, p, n); }
  }

  lemma FirstOfRest(l: seq<Contact>, p: nat, n: nat)
    requires p < |l|
    ensures var f := First(l, n + 1);
            First(l[..p] + l[p + 1..], n) == if p <= n then f[..p] + f[p + 1..] else First(l, n)
  {
    var a, b := l[..p], l[p + 1..];
    if p > n {
      assert (a + b)[..n] == l[..n];
    } else if |l| > n + 1 {
      PrefixOfConcat(a, b, n - p);
      assert l[..n + 1][..p] == a && l[..n + 1][p + 1..] == b[..n - p];
    }
  }

  lemma PrefixOfConcat(a: seq<Contact>, b: seq<Contact>, k: nat)
    requires k <= |b|
    ensures (a + b)[..|a| + k] == a + b[..k]
  {
  }

  lemma FirstCons(x: Contact, w: seq<Contact>, n: nat)
    ensures Elements(First([x] + w, n + 1)) == {x} + Elements(First(w, n))
  {
    assert First([x] + w, n + 1) == [x] + First(w, n);
    ElementsConcat([x], First(w, n));
  }

  // Putting x in front of w, where w misses exactly one of the first n + 1 contacts f.
  lemma TouchSets(x: Contact, w: seq<Contact>, f: seq<Contact>, n: nat, p: nat)
    requires DistinctKeys(f) && p < |f| && First(w, n) == f[..p] + f[p + 1..]
    ensures Elements(First([x] + w, n + 1)) == {x} + (Elements(f) - {f[p]})
  {
    FirstCons(x, w, n);
    ElementsWithout(f, p);
  }

  lemma FirstDistinct(l: seq<Contact>, n: nat)
    requires DistinctKeys(l)
    ensures DistinctKeys(First(l, n))
  {
  }

  // The table agrees with the call history in bucket c.
  ghost predicate HoldsRecent(local: string, h: seq<Touch>, s: seq<Entry>, c: nat) {
    Elements(Bucket(s, c)) == Elements(First(Recency(local, h, c), BUCKET_SIZE))
  }

  lemma {:induction false} BucketEntries(s: seq<Entry>, c: nat)
    ensures forall i :: 0 <= i < |s| && s[i].common == c ==> s[i].contact in Bucket(s, c)
    ensures forall x :: x in Bucket(s, c) ==> Entry(c, x) in s
  {
    if s != [] { BucketEntries(s[..|s| - 1], c); }
  }

  lemma {:induction false} BucketKeys(s: seq<Entry>, c: nat)
    requires UniqueKeys(s)
    ensures DistinctKeys(Bucket(s, c))
  {
    if s != [] {
      var n := |s| - 1;
      var l := Bucket(s[..n], c);
      BucketKeys(s[..n], c);
      BucketEntries(s[..n], c);
      forall i | 0 <= i < |l| ensures l[i].key != s[n].contact.key {
        assert l[i] in l;
        var j :| 0 <= j < n && s[..n][j] == Entry(c, l[i]);
      }
    }
  }

  lemma {:induction false} DistinctSize(l: seq<Contact>)
    requires DistinctKeys(l)
    ensures |Elements(l)| == |l|
  {
    if l != [] {
      DistinctSize(l[1..]);
      assert l == [l[0]] + l[1..];
      ElementsConcat([l[0]], l[1..]);
      assert l[0] !in l[1..];
      assert Elements([l[0]]) == {l[0]};
    }
  }

  lemma EvictElsewhere(s: seq<Entry>, b: nat, c: nat)
    requires Ordered(s) && b != c
    ensures Bucket(Evicted(s, b), c) == Bucket(s, c)
  {
    var lo, hi := Lower(s, b), Upper(s, b);
    if lo + BUCKET_SIZE <= hi {
      var m := Oldest(s, lo, hi);
      Segment(s, b, m);
      RemoveBuckets(s, m, c);
    }
  }

  lemma AddElsewhere(local: string, s: seq<Entry>, t: Touch, c: nat)
    requires Table(local, s) && (t.key == local || SharedBits(local, t.key) != c)
    ensures Bucket(Added(local, s, t.key, t.ep, t.time), c) == Bucket(s, c)
  {
    var b := SharedBits(local, t.key);
    var x := Contact(t.key, t.ep, Some(t.time));
    if t.key != local {
      var i := FindIndex(s, t.key);
      if i < |s| {
        UpdateBuckets(s, i, x, c);
      } else {
        EvictElsewhere(s, b, c);
        EvictMakesRoom(local, s, b);
        InsertBuckets(Evicted(s, b), Entry(b, x), c);
      }
    }
  }

  lemma AddKnown(local: string, s: seq<Entry>, t: Touch, c: nat, i: nat)
    requires Table(local, s) && t.key != local && SharedBits(local, t.key) == c
    requires i == FindIndex(s, t.key) < |s|
    ensures Elements(Bucket(Added(local, s, t.key, t.ep, t.time), c)) ==
            Elements(Bucket(s, c)) - {s[i].contact} + {Contact(t.key, t.ep, Some(t.time))}
  {
    var x := Contact(t.key, t.ep, Some(t.time));
    UpdateBuckets(s, i, x, c);
    BucketKeys(s, c);
    ElementsMiddle(Bucket(s[..i], c), s[i].contact, Bucket(s[i + 1..], c), x);
  }

  lemma AddNew(local: string, s: seq<Entry>, t: Touch, c: nat)
    requires Table(local, s) && t.key != local && SharedBits(local, t.key) == c
    requires FindIndex(s, t.key) == |s|
    ensures Elements(Bucket(Added(local, s, t.key, t.ep, t.time), c)) ==
            Elements(Bucket(Evicted(s, c), c)) + {Contact(t.key, t.ep, Some(t.time))}
  {
    var x := Contact(t.key, t.ep, Some(t.time));
    EvictMakesRoom(local, s, c);
    InsertBuckets(Evicted(s, c), Entry(c, x), c);
    ElementsConcat(Bucket(Evicted(s, c), c), [x]);
  }

  lemma TouchKnown(local: string, h: seq<Touch>, t: Touch, c: nat, s: seq<Entry>)
    requires Table(local, s) && HoldsRecent(local, h, s, c) && DistinctKeys(Recency(local, h, c))
    requires t.key != local && SharedBits(local, t.key) == c && FindIndex(s, t.key) < |s|
    ensures Elements(Bucket(Added(local, s, t.key, t.ep, t.time), c)) ==
            Elements(First([Contact(t.key, t.ep, Some(t.time))] + Without(Recency(local, h, c), t.key), BUCKET_SIZE))
  {
    var l, x := Recency(local, h, c), Contact(t.key, t.ep, Some(t.time));
    var i, p, f := FindIndex(s, t.key), Position(l, t.key), First(l, BUCKET_SIZE);
    AddKnown(local, s, t, c, i);
    BucketEntries(s, c);
    assert s[i].contact in Elements(Bucket(s, c));
    var q :| 0 <= q < |f| && f[q] == s[i].contact;
    assert q == p by { assert l[q].key == t.key; }
    FirstDistinct(l, BUCKET_SIZE);
    FirstOfWithout(l, t.key, BUCKET_SIZE - 1);
    TouchSets(x, Without(l, t.key), f, BUCKET_SIZE - 1, p);
  }

  lemma UnknownUnlisted(local: string, h: seq<Touch>, k: string, c: nat, s: seq<Entry>)
    requires HoldsRecent(local, h, s, c) && FindIndex(s, k) == |s|
    ensures Position(Recency(local, h, c), k) >= BUCKET_SIZE
            || Position(Recency(local, h, c), k) == |Recency(local, h, c)|
  {
    var l := Recency(local, h, c);
    var p, f := Position(l, k), First(l, BUCKET_SIZE);
    if p < |l| && p < BUCKET_SIZE {
      assert f[p] in Elements(Bucket(s, c));
      BucketEntries(s, c);
      FindIndexAbsent(s, k);
    }
  }

  lemma LastPlaceFallsOff(l: seq<Contact>, x: Contact, w: seq<Contact>, n: nat)
    requires DistinctKeys(l) && n < |l| && First(w, n) == First(l, n)
    ensures Elements(First([x] + w, n + 1)) == {x} + (Elements(First(l, n + 1)) - {l[n]})
  {
    var f := First(l, n + 1);
    FirstDistinct(l, n + 1);
    assert f[..n] + f[n + 1..] == First(l, n);
    TouchSets(x, w, f, n, n);
  }

  lemma SizesAgree(local: string, h: seq<Touch>, s: seq<Entry>, c: nat)
    requires Table(local, s) && HoldsRecent(local, h, s, c) && DistinctKeys(Recency(local, h, c))
    ensures |Bucket(s, c)| == |First(Recency(local, h, c), BUCKET_SIZE)|
  {
    BucketKeys(s, c);
    DistinctSize(Bucket(s, c));
    FirstDistinct(Recency(local, h, c), BUCKET_SIZE);
    DistinctSize(First(Recency(local, h, c), BUCKET_SIZE));
  }

  // Entry j is evicted rather than entry i: it is older, or as old and behind it.
  predicate Before(s: seq<Entry>, j: nat, i: nat)
    requires i < |s| && j < |s|
  {
    Stamp(s[j].contact) < Stamp(s[i].contact) || (Stamp(s[j].contact) == Stamp(s[i].contact) && i < j)
  }

  // The position evicted is i exactly when no other is evicted rather than it.
  lemma OldestIs(s: seq<Entry>, lo: nat, hi: nat, i: nat)
    requires lo <= i < hi <= |s|
    ensures Oldest(s, lo, hi) == i <==> forall j :: lo <= j < hi ==> !Before(s, j, i)
  {
    var m := Oldest(s, lo, hi);
    if m != i { assert Before(s, m, i); }
  }

  // The touch brings a new key into a full bucket, in which another entry is evicted rather than
  // the one touched least recently.
  ghost predicate EvictsAnother(local: string, h: seq<Touch>, t: Touch) {
    var s, c := AfterTouches(local, h), SharedBits(local, t.key);
    && t.key != local
    && FindIndex(s, t.key) == |s|
    && |Bucket(s, c)| >= BUCKET_SIZE
    && exists i, j :: 0 <= i < |s| && 0 <= j < |s| && Preferred(s, Recency(local, h, c), c, i, j)
  }

  // Entry i is the one touched least recently of the five, and entry j of its bucket goes before it.
  ghost predicate Preferred(s: seq<Entry>, l: seq<Contact>, c: nat, i: nat, j: nat)
    requires i < |s| && j < |s|
  {
    |l| >= BUCKET_SIZE && s[i] == Entry(c, l[BUCKET_SIZE - 1]) && s[j].common == c && Before(s, j, i)
  }

  // The same when times never go back: behind the entry touched least recently there is another of
  // the same time.
  ghost predicate TieEvicts(local: string, h: seq<Touch>, t: Touch) {
    var s, c := AfterTouches(local, h), SharedBits(local, t.key);
    && t.key != local
    && FindIndex(s, t.key) == |s|
    && |Bucket(s, c)| >= BUCKET_SIZE
    && exists i, j :: 0 <= i < j < |s| && Tied(s, Recency(local, h, c), c, i, j)
  }

  ghost predicate Tied(s: seq<Entry>, l: seq<Contact>, c: nat, i: nat, j: nat)
    requires i < |s| && j < |s|
  {
    && |l| >= BUCKET_SIZE && s[i] == Entry(c, l[BUCKET_SIZE - 1])
    && s[j].common == c && Stamp(s[j].contact) == Stamp(s[i].contact)
  }

  // The place in a full bucket of the contact that should go.
  lemma LeastRecentPlace(local: string, h: seq<Touch>, s: seq<Entry>, c: nat) returns (i: nat)
    requires Table(local, s) && HoldsRecent(local, h, s, c) && |Bucket(s, c)| >= BUCKET_SIZE
    ensures |Recency(local, h, c)| >= BUCKET_SIZE && i < |s| && s[i] == Entry(c, Recency(local, h, c)[BUCKET_SIZE - 1])
  {
    var l := Recency(local, h, c);
    RecencyDistinct(local, h, c);
    SizesAgree(local, h, s, c);
    var f := First(l, BUCKET_SIZE);
    BucketEntries(s, c);
    assert f[BUCKET_SIZE - 1] in Elements(Bucket(s, c));
    i :| 0 <= i < |s| && s[i] == Entry(c, l[BUCKET_SIZE - 1]);
  }

  // When times never go back no entry of the bucket is older than that contact.
  lemma LeastRecentIsOldest(local: string, h: seq<Touch>, s: seq<Entry>, c: nat, i: nat, j: nat)
    requires HoldsRecent(local, h, s, c) && NonIncreasingTimes(Recency(local, h, c)) && i < |s| && j < |s|
    requires |Recency(local, h, c)| >= BUCKET_SIZE && s[i] == Entry(c, Recency(local, h, c)[BUCKET_SIZE - 1])
    requires s[j].common == c
    ensures Stamp(s[i].contact) <= Stamp(s[j].contact)
  {
    var f := First(Recency(local, h, c), BUCKET_SIZE);
    BucketEntries(s, c);
    assert s[j].contact in Elements(f);
    var q :| 0 <= q < |f| && f[q] == s[j].contact;
  }

  // A full bucket loses the contact at the position of its oldest entry.
  lemma EvictsAt(local: string, s: seq<Entry>, c: nat) returns (m: nat)
    requires Table(local, s) && |Bucket(s, c)| >= BUCKET_SIZE
    ensures Lower(s, c) < Upper(s, c) <= |s| && m == Oldest(s, Lower(s, c), Upper(s, c))
    ensures s[m].contact in Bucket(s, c)
    ensures Elements(Bucket(Evicted(s, c), c)) == Elements(Bucket(s, c)) - {s[m].contact}
  {
    BucketCount(s, c);
    m := Oldest(s, Lower(s, c), Upper(s, c));
    Segment(s, c, m);
    RemoveBuckets(s, m, c);
    BucketKeys(s, c);
    ElementsMiddle(Bucket(s[..m], c), s[m].contact, Bucket(s[m + 1..], c), s[m].contact);
  }

  lemma SameLoss<T>(all: set<T>, x: T, a: T, b: T)
    requires x !in all && a in all && b in all
    ensures (all - {a}) + {x} == {x} + (all - {b}) <==> a == b
  {
    if a != b { assert b in (all - {a}) + {x} && b !in {x} + (all - {b}); }
  }

  // A new key in a bucket with room.
  lemma TouchWithRoom(local: string, h: seq<Touch>, t: Touch, c: nat, s: seq<Entry>)
    requires Table(local, s) && HoldsRecent(local, h, s, c) && DistinctKeys(Recency(local, h, c))
    requires t.key != local && SharedBits(local, t.key) == c && FindIndex(s, t.key) == |s|
    requires |Bucket(s, c)| < BUCKET_SIZE
    ensures HoldsRecent(local, h + [t], Added(local, s, t.key, t.ep, t.time), c)
  {
    var l, x, w := Recency(local, h, c), Contact(t.key, t.ep, Some(t.time)), Without(Recency(local, h, c), t.key);
    assert (h + [t])[..|h|] == h;
    AddNew(local, s, t, c);
    UnknownUnlisted(local, h, t.key, c, s);
    SizesAgree(local, h, s, c);
    EvictsOnlyWhenFull(s, c);
    hide Evicted, SharedBits, Added, Position, Bucket;
    FirstOfWithout(l, t.key, BUCKET_SIZE - 1);
    FirstCons(x, w, BUCKET_SIZE - 1);
  }

  // A new key in a full bucket: the agreement is kept exactly when the entry touched least
  // recently is the one evicted.
  lemma TouchWhenFull(local: string, h: seq<Touch>, t: Touch, c: nat, s: seq<Entry>, i: nat)
    requires Table(local, s) && HoldsRecent(local, h, s, c) && DistinctKeys(Recency(local, h, c))
    requires t.key != local && SharedBits(local, t.key) == c && FindIndex(s, t.key) == |s|
    requires |Bucket(s, c)| >= BUCKET_SIZE && |Recency(local, h, c)| >= BUCKET_SIZE
    requires i < |s| && s[i] == Entry(c, Recency(local, h, c)[BUCKET_SIZE - 1])
    ensures Lower(s, c) < Upper(s, c) <= |s|
    ensures HoldsRecent(local, h + [t], Added(local, s, t.key, t.ep, t.time), c)
            <==> Oldest(s, Lower(s, c), Upper(s, c)) == i
  {
    var l, x, w := Recency(local, h, c), Contact(t.key, t.ep, Some(t.time)), Without(Recency(local, h, c), t.key);
    assert (h + [t])[..|h|] == h;
    AddNew(local, s, t, c);
    UnknownUnlisted(local, h, t.key, c, s);
    FirstOfWithout(l, t.key, BUCKET_SIZE - 1);
    LastPlaceFallsOff(l, x, w, BUCKET_SIZE - 1);
    var m := EvictsAt(local, s, c);
    NewIsAbsent(s, c, x);
    BucketEntries(s, c);
    SameLoss(Elements(Bucket(s, c)), x, s[m].contact, s[i].contact);
  }

  lemma NewIsAbsent(s: seq<Entry>, c: nat, x: Contact)
    requires FindIndex(s, x.key) == |s|
    ensures x !in Bucket(s, c)
  {
    BucketEntries(s, c);
    FindIndexAbsent(s, x.key);
  }

  // One touch in its own bucket, at whatever time.
  lemma TouchKeepsExactly(local: string, h: seq<Touch>, t: Touch, c: nat)
    requires t.key != local && SharedBits(local, t.key) == c
    requires Table(local, AfterTouches(local, h)) && HoldsRecent(local, h, AfterTouches(local, h), c)
    ensures HoldsRecent(local, h + [t], AfterTouches(local, h + [t]), c) <==> !EvictsAnother(local, h, t)
  {
    var s, l := AfterTouches(local, h), Recency(local, h, c);
    assert (h + [t])[..|h|] == h;
    RecencyDistinct(local, h, c);
    if FindIndex(s, t.key) < |s| {
      TouchKnown(local, h, t, c, s);
    } else if |Bucket(s, c)| < BUCKET_SIZE {
      TouchWithRoom(local, h, t, c, s);
    } else {
      var i := LeastRecentPlace(local, h, s, c);
      TouchWhenFull(local, h, t, c, s, i);
      PreferredExactly(local, s, l, c, i);
    }
  }

  // The entry at place i is not the one evicted exactly when another goes before it.
  lemma PreferredExactly(local: string, s: seq<Entry>, l: seq<Contact>, c: nat, i: nat)
    requires Table(local, s) && |l| >= BUCKET_SIZE && i < |s| && s[i] == Entry(c, l[BUCKET_SIZE - 1])
    ensures Lower(s, c) < Upper(s, c) <= |s|
    ensures Oldest(s, Lower(s, c), Upper(s, c)) != i
            <==> exists k, j :: 0 <= k < |s| && 0 <= j < |s| && Preferred(s, l, c, k, j)
  {
    var lo, hi := Lower(s, c), Upper(s, c);
    forall j: nat | j < |s| ensures s[j].common == c <==> lo <= j < hi { Segment(s, c, j); }
    OldestIs(s, lo, hi, i);
    if Oldest(s, lo, hi) != i {
      var j :| lo <= j < hi && Before(s, j, i);
      assert Preferred(s, l, c, i, j);
    }
    forall k, j | 0 <= k < |s| && 0 <= j < |s| && Preferred(s, l, c, k, j) ensures k == i {
      SamePlace(s, k, i);
    }
  }

  lemma SamePlace(s: seq<Entry>, k: nat, i: nat)
    requires UniqueKeys(s) && k < |s| && i < |s| && s[k] == s[i]
    ensures k == i
  {
  }

  // When times never go back, only a tie makes another entry go first.
  lemma OnlyTies(local: string, h: seq<Touch>, t: Touch)
    requires NonDecreasing(h) && HoldsAllRecent(local, h)
    ensures EvictsAnother(local, h, t) <==> TieEvicts(local, h, t)
  {
    var s, c := AfterTouches(local, h), SharedBits(local, t.key);
    var l := Recency(local, h, c);
    var now := if h == [] then 0 else h[|h| - 1].time;
    RecencySettles(local, h, c, now);
    assert HoldsRecent(local, h, s, c);
    if EvictsAnother(local, h, t) {
      var i, j :| 0 <= i < |s| && 0 <= j < |s| && Preferred(s, l, c, i, j);
      LeastRecentIsOldest(local, h, s, c, i, j);
      assert Tied(s, l, c, i, j);
    }
    if TieEvicts(local, h, t) {
      var i, j :| 0 <= i < j < |s| && Tied(s, l, c, i, j);
      assert Preferred(s, l, c, i, j);
    }
  }

  ghost predicate HoldsAllRecent(local: string, h: seq<Touch>) {
    forall c: nat :: HoldsRecent(local, h, AfterTouches(local, h), c)
  }

  lemma {:induction false} TouchesKeepTable(local: string, h: seq<Touch>)
    ensures Table(local, AfterTouches(local, h))
  {
    if h == [] {
      EmptyTable(local);
    } else {
      var n := |h| - 1;
      TouchesKeepTable(local, h[..n]);
      AddKeepsTable(local, AfterTouches(local, h[..n]), h[n].key, h[n].ep, h[n].time);
    }
  }

  lemma StartsRecent(local: string, h: seq<Touch>)
    ensures HoldsAllRecent(local, h[..0])
  {
    assert h[..0] == [];
  }

  lemma StepKeepsExactly(local: string, h: seq<Touch>, t: Touch)
    requires HoldsAllRecent(local, h)
    ensures HoldsAllRecent(local, h + [t]) <==> !EvictsAnother(local, h, t)
  {
    var own := SharedBits(local, t.key);
    assert (h + [t])[..|h|] == h;
    TouchesKeepTable(local, h);
    forall c: nat | t.key == local || c != own ensures HoldsRecent(local, h + [t], AfterTouches(local, h + [t]), c) {
      assert HoldsRecent(local, h, AfterTouches(local, h), c);
      AddElsewhere(local, AfterTouches(local, h), t, c);
    }
    assert HoldsRecent(local, h, AfterTouches(local, h), own);
    if t.key != local { TouchKeepsExactly(local, h, t, own); }
  }

  // Every bucket holds exactly the most recently touched keys of its prefix throughout a run of
  // touches, at whatever times, if and only if no touch evicts another entry than the one touched
  // least recently.
  lemma EvictionIsRecentExactly(local: string, h: seq<Touch>)
    ensures (forall n :: 0 <= n <= |h| ==> HoldsAllRecent(local, h[..n]))
            <==> (forall n :: 0 <= n < |h| ==> !EvictsAnother(local, h[..n], h[n]))
  {
    if forall n :: 0 <= n <= |h| ==> HoldsAllRecent(local, h[..n]) {
      forall n | 0 <= n < |h| ensures !EvictsAnother(local, h[..n], h[n]) {
        assert h[..n + 1] == h[..n] + [h[n]];
        assert HoldsAllRecent(local, h[..n + 1]);
        StepKeepsExactly(local, h[..n], h[n]);
      }
    }
    if forall n :: 0 <= n < |h| ==> !EvictsAnother(local, h[..n], h[n]) {
      forall n | 0 <= n <= |h| ensures HoldsAllRecent(local, h[..n]) {
        RecentUpTo(local, h, n);
      }
    }
  }

  lemma {:induction false} RecentUpTo(local: string, h: seq<Touch>, n: nat)
    requires n <= |h| && forall k :: 0 <= k < n ==> !EvictsAnother(local, h[..k], h[k])
    ensures HoldsAllRecent(local, h[..n])
  {
    hide HoldsAllRecent, EvictsAnother, AfterTouches;
    if n == 0 {
      StartsRecent(local, h);
    } else {
      RecentUpTo(local, h, n - 1);
      assert h[..n] == h[..n - 1] + [h[n - 1]];
      StepKeepsExactly(local, h[..n - 1], h[n - 1]);
    }
  }

  // At times that never go back this means that no touch evicts past a tie.
  lemma EvictionIsRecentWithoutTies(local: string, h: seq<Touch>)
    requires NonDecreasing(h)
    ensures (forall n :: 0 <= n <= |h| ==> HoldsAllRecent(local, h[..n]))
            <==> (forall n :: 0 <= n < |h| ==> !TieEvicts(local, h[..n], h[n]))
  {
    EvictionIsRecentExactly(local, h);
    if forall n :: 0 <= n <= |h| ==> HoldsAllRecent(local, h[..n]) {
      forall n | 0 <= n < |h| ensures !TieEvicts(local, h[..n], h[n]) {
        OnlyTies(local, h[..n], h[n]);
      }
    }
    if forall n :: 0 <= n < |h| ==> !TieEvicts(local, h[..n], h[n]) {
      forall n | 0 <= n <= |h| ensures HoldsAllRecent(local, h[..n]) {
        RecentWithoutTies(local, h, n);
      }
    }
  }

  lemma {:induction false} RecentWithoutTies(local: string, h: seq<Touch>, n: nat)
    requires NonDecreasing(h) && n <= |h| && forall k :: 0 <= k < n ==> !TieEvicts(local, h[..k], h[k])
    ensures HoldsAllRecent(local, h[..n])
  {
    hide HoldsAllRecent, EvictsAnother, TieEvicts, AfterTouches;
    if n == 0 {
      StartsRecent(local, h);
    } else {
      RecentWithoutTies(local, h, n - 1);
      assert h[..n] == h[..n - 1] + [h[n - 1]];
      OnlyTies(local, h[..n - 1], h[n - 1]);
      StepKeepsExactly(local, h[..n - 1], h[n - 1]);
    }
  }

  // Every contact on record is that of some touch.
  lemma {:induction false} RecencyFromTouches(local: string, h: seq<Touch>, c: nat, x: Contact)
    requires x in Recency(local, h, c)
    ensures exists i :: 0 <= i < |h| && x == Contact(h[i].key, h[i].ep, Some(h[i].time))
  {
    var n := |h| - 1;
    var t, l := h[n], Recency(local, h[..n], c);
    if x != Contact(t.key, t.ep, Some(t.time)) {
      WithoutSubset(l, t.key);
      RecencyFromTouches(local, h[..n], c, x);
      var i :| 0 <= i < n && x == Contact(h[..n][i].key, h[..n][i].ep, Some(h[..n][i].time));
      assert h[i] == h[..n][i];
    }
  }

  // Different times leave no ties.
  lemma NoTies(local: string, h: seq<Touch>, t: Touch)
    requires Increasing(h) && HoldsAllRecent(local, h)
    ensures !TieEvicts(local, h, t)
  {
    var s, c := AfterTouches(local, h), SharedBits(local, t.key);
    var l := Recency(local, h, c);
    TouchesKeepTable(local, h);
    if exists i, j :: 0 <= i < j < |s| && Tied(s, l, c, i, j) {
      var i, j :| 0 <= i < j < |s| && Tied(s, l, c, i, j);
      assert HoldsRecent(local, h, s, c);
      InBucketIsRecent(local, h, s, c, i);
      InBucketIsRecent(local, h, s, c, j);
      OneContactPerTime(local, h, c, s[i].contact, s[j].contact);
    }
  }

  lemma InBucketIsRecent(local: string, h: seq<Touch>, s: seq<Entry>, c: nat, i: nat)
    requires HoldsRecent(local, h, s, c) && i < |s| && s[i].common == c
    ensures s[i].contact in Recency(local, h, c)
  {
    BucketEntries(s, c);
    assert s[i].contact in Elements(First(Recency(local, h, c), BUCKET_SIZE));
  }

  lemma OneContactPerTime(local: string, h: seq<Touch>, c: nat, x: Contact, y: Contact)
    requires Increasing(h) && x in Recency(local, h, c) && y in Recency(local, h, c) && Stamp(x) == Stamp(y)
    ensures x == y
  {
    RecencyFromTouches(local, h, c, x);
    RecencyFromTouches(local, h, c, y);
  }

  // Evicting the least time is evicting the least recently touched: with strictly increasing
  // times and no removals, bucket c holds exactly the most recently touched keys of that prefix.
  lemma EvictionIsLeastRecentlyUsed(local: string, h: seq<Touch>, c: nat)
    requires Increasing(h)
    ensures Table(local, AfterTouches(local, h)) && HoldsRecent(local, h, AfterTouches(local, h), c)
  {
    TouchesKeepTable(local, h);
    assert h[..|h|] == h;
    IncreasingKeepsRecent(local, h, |h|);
  }

  lemma {:induction false} IncreasingKeepsRecent(local: string, h: seq<Touch>, n: nat)
    requires Increasing(h) && n <= |h|
    ensures HoldsAllRecent(local, h[..n])
  {
    hide HoldsAllRecent, EvictsAnother, TieEvicts, AfterTouches;
    if n == 0 {
      StartsRecent(local, h);
    } else {
      IncreasingKeepsRecent(local, h, n - 1);
      assert h[..n] == h[..n - 1] + [h[n - 1]];
      NoTies(local, h[..n - 1], h[n - 1]);
      OnlyTies(local, h[..n - 1], h[n - 1]);
      StepKeepsExactly(local, h[..n - 1], h[n - 1]);
    }
  }

  // Touches of several keys within one second.
  function SameSecond(keys: seq<string>, ep: Endpoint, now: nat): seq<Touch> {
    seq(|keys|, i requires 0 <= i < |keys| => Touch(keys[i], ep, now))
  }

  function ContactsAt(keys: seq<string>, ep: Endpoint, now: nat): seq<Contact> {
    seq(|keys|, i requires 0 <= i < |keys| => Contact(keys[i], ep, Some(now)))
  }

  ghost predicate Neighbours(local: string, keys: seq<string>, c: nat) {
    && (forall i, j :: 0 <= i < j < |keys| ==> keys[i] != keys[j])
    && (forall i :: 0 <= i < |keys| ==> keys[i] != local && SharedBits(local, keys[i]) == c)
  }

  // A new key in its bucket: behind the others, when one has been evicted if need be.
  lemma AddBehind(local: string, s: seq<Entry>, t: Touch, c: nat)
    requires Table(local, s) && t.key != local && SharedBits(local, t.key) == c && FindIndex(s, t.key) == |s|
    ensures Bucket(Added(local, s, t.key, t.ep, t.time), c)
            == Bucket(Evicted(s, c), c) + [Contact(t.key, t.ep, Some(t.time))]
  {
    EvictMakesRoom(local, s, c);
    InsertBuckets(Evicted(s, c), Entry(c, Contact(t.key, t.ep, Some(t.time))), c);
  }

  lemma EvictsOnlyWhenFull(s: seq<Entry>, c: nat)
    requires Ordered(s) && |Bucket(s, c)| < BUCKET_SIZE
    ensures Evicted(s, c) == s
  {
    BucketCount(s, c);
  }

  // A key whose bucket does not list it is nowhere in the table.
  lemma UnlistedIsAbsent(local: string, s: seq<Entry>, k: string, c: nat)
    requires Table(local, s) && SharedBits(local, k) == c && forall x :: x in Bucket(s, c) ==> x.key != k
    ensures FindIndex(s, k) == |s|
  {
    BucketEntries(s, c);
  }

  lemma {:induction false} FillBucket(local: string, keys: seq<string>, c: nat, ep: Endpoint, now: nat)
    requires Neighbours(local, keys, c) && |keys| <= BUCKET_SIZE
    ensures Bucket(AfterTouches(local, SameSecond(keys, ep, now)), c) == ContactsAt(keys, ep, now)
  {
    if keys != [] {
      var (front, k) := (keys[..|keys| - 1], keys[|keys| - 1]);
      assert keys == front + [k];
      LastNeighbour(local, front, k, c);
      FillBucket(local, front, c, ep, now);
      FillOneMore(local, front, k, c, ep, now);
    }
  }

  lemma LastNeighbour(local: string, front: seq<string>, k: string, c: nat)
    requires Neighbours(local, front + [k], c)
    ensures Neighbours(local, front, c) && k !in front && k != local && SharedBits(local, k) == c
  {
    var keys := front + [k];
    assert keys[|front|] == k && forall i :: 0 <= i < |front| ==> keys[i] == front[i];
  }

  lemma FillOneMore(local: string, front: seq<string>, k: string, c: nat, ep: Endpoint, now: nat)
    requires k !in front && k != local && SharedBits(local, k) == c && |front| < BUCKET_SIZE
    requires Bucket(AfterTouches(local, SameSecond(front, ep, now)), c) == ContactsAt(front, ep, now)
    ensures Bucket(AfterTouches(local, SameSecond(front + [k], ep, now)), c) == ContactsAt(front + [k], ep, now)
  {
    hide SharedBits, Added, Evicted, AfterTouches;
    NextInSecond(local, front, k, c, ep, now);
    EvictsOnlyWhenFull(AfterTouches(local, SameSecond(front, ep, now)), c);
    assert ContactsAt(front + [k], ep, now) == ContactsAt(front, ep, now) + [Contact(k, ep, Some(now))];
  }

  lemma NextInSecond(local: string, front: seq<string>, k: string, c: nat, ep: Endpoint, now: nat)
    requires k !in front && k != local && SharedBits(local, k) == c
    requires Bucket(AfterTouches(local, SameSecond(front, ep, now)), c) == ContactsAt(front, ep, now)
    ensures var s := AfterTouches(local, SameSecond(front, ep, now));
            && Table(local, s)
            && Bucket(AfterTouches(local, SameSecond(front + [k], ep, now)), c)
               == Bucket(Evicted(s, c), c) + [Contact(k, ep, Some(now))]
  {
    var h, s := SameSecond(front + [k], ep, now), AfterTouches(local, SameSecond(front, ep, now));
    assert h[..|h| - 1] == SameSecond(front, ep, now);
    TouchesKeepTable(local, SameSecond(front, ep, now));
    UnlistedIsAbsent(local, s, k, c);
    AddBehind(local, s, Touch(k, ep, now), c);
  }

  // A run in which it fails: six keys of one bucket within a second. The fifth is gone, though only
  // the sixth was touched after it, and the first is still there.
  lemma SixInOneSecond(local: string, keys: seq<string>, c: nat, ep: Endpoint, now: nat)
    requires Neighbours(local, keys, c) && |keys| == BUCKET_SIZE + 1
    ensures var b := Bucket(AfterTouches(local, SameSecond(keys, ep, now)), c);
            b == ContactsAt(keys[..BUCKET_SIZE - 1], ep, now) + [Contact(keys[BUCKET_SIZE], ep, Some(now))]
  {
    hide SharedBits, Added, Evicted, AfterTouches;
    var (front, k) := (keys[..BUCKET_SIZE], keys[BUCKET_SIZE]);
    var s := AfterTouches(local, SameSecond(front, ep, now));
    assert keys == front + [k];
    LastNeighbour(local, front, k, c);
    FillBucket(local, front, c, ep, now);
    NextInSecond(local, front, k, c, ep, now);
    EqualTimesEvictNewest(s, c, now);
    assert ContactsAt(front, ep, now)[..BUCKET_SIZE - 1] == ContactsAt(keys[..BUCKET_SIZE - 1], ep, now);
  }

  lemma {:induction false} RecencyOfSecond(local: string, front: seq<string>, j: string, k: string, c: nat,
      ep: Endpoint, now: nat)
    requires j != k && j != local && k != local && SharedBits(local, j) == SharedBits(local, k) == c
    ensures var l := Recency(local, SameSecond(front + [j] + [k], ep, now), c);
            |l| >= 2 && l[1] == Contact(j, ep, Some(now))
  {
    var g, h := SameSecond(front + [j], ep, now), SameSecond(front + [j] + [k], ep, now);
    assert h[..|h| - 1] == g;
    assert Recency(local, g, c)[0] == Contact(j, ep, Some(now));
    assert Position(Recency(local, g, c), k) > 0;
  }

  // So the bucket does not hold the five keys touched last.
  lemma SixInOneSecondFail(local: string, keys: seq<string>, c: nat, ep: Endpoint, now: nat)
    requires Neighbours(local, keys, c) && |keys| == BUCKET_SIZE + 1
    ensures var h := SameSecond(keys, ep, now); NonDecreasing(h) && !HoldsRecent(local, h, AfterTouches(local, h), c)
  {
    hide AfterTouches, Bucket, Recency, SharedBits, Neighbours;
    var (front, j, k) := (keys[..BUCKET_SIZE - 1], keys[BUCKET_SIZE - 1], keys[BUCKET_SIZE]);
    var h, x := SameSecond(keys, ep, now), Contact(j, ep, Some(now));
    assert keys == front + [j] + [k];
    LastTwoNeighbours(local, front, j, k, c);
    SixInOneSecond(local, keys, c, ep, now);
    RecencyOfSecond(local, front, j, k, c, ep, now);
    NotAmong(front, j, k, ep, now);
    assert First(Recency(local, h, c), BUCKET_SIZE)[1] == x;
    assert x in Elements(First(Recency(local, h, c), BUCKET_SIZE));
  }

  lemma LastTwoNeighbours(local: string, front: seq<string>, j: string, k: string, c: nat)
    requires Neighbours(local, front + [j] + [k], c)
    ensures j !in front && j != k && j != local && k != local && SharedBits(local, j) == SharedBits(local, k) == c
  {
    LastNeighbour(local, front + [j], k, c);
    LastNeighbour(local, front, j, c);
    assert (front + [j])[|front|] == j;
  }

  lemma NotAmong(front: seq<string>, j: string, k: string, ep: Endpoint, now: nat)
    requires j !in front && j != k
    ensures Contact(j, ep, Some(now)) !in ContactsAt(front, ep, now) + [Contact(k, ep, Some(now))]
  {
  }

  // A key that shares no leading bit with the local one, in as many texts as one likes: what follows
  // the 64 characters of a key is not read.
  function Opposite(local: string, n: nat): string {
    KeyText(ByteReversal(Not(StringToKey(local)))) + seq(n, _ => '0')
  }

  lemma OppositeReads(local: string, n: nat)
    ensures StringToKey(Opposite(local, n)) == Not(StringToKey(local))
  {
    var a := Not(StringToKey(local));
    var b, rest := ByteReversal(a), seq(n, _ => '0');
    hide BitOf, PrintDigest, HighBytes, ParseDigest, DigestBits, ByteReversal, Xor, Not;
    ByteReversalTwice(a);
    HighBytesBits(b);
    PrintThenParse(HighBytes(b), rest);
  }

  lemma OppositeSharesNothing(local: string, n: nat)
    ensures SharedBits(local, Opposite(local, n)) == 0 && Opposite(local, n) != local
  {
    var a := StringToKey(local);
    hide StringToKey, Opposite;
    OppositeReads(local, n);
    assert a[KEY_SIZE - 1] != Not(a)[KEY_SIZE - 1];
    CommonBitsUnique(a, Not(a), 0);
  }

  // Whatever the local key, six such keys exist, and touching them within a second is a run in which
  // the bucket does not hold the keys touched last.
  lemma EveryTableCanForget(local: string, ep: Endpoint, now: nat) returns (keys: seq<string>)
    ensures Neighbours(local, keys, 0) && |keys| == BUCKET_SIZE + 1
    ensures var h := SameSecond(keys, ep, now); !HoldsRecent(local, h, AfterTouches(local, h), 0)
  {
    keys := seq(BUCKET_SIZE + 1, n requires 0 <= n < BUCKET_SIZE + 1 => Opposite(local, n));
    forall i | 0 <= i < |keys| ensures keys[i] != local && SharedBits(local, keys[i]) == 0 {
      OppositeSharesNothing(local, i);
    }
    forall i, j | 0 <= i < j < |keys| ensures keys[i] != keys[j] {
      assert |keys[i]| + (j - i) == |keys[j]|;
    }
    SixInOneSecondFail(local, keys, 0, ep, now);
  }

  // Among equal times the eviction drops the entry that entered the bucket last.
  lemma EqualTimesEvictNewest(s: seq<Entry>, c: nat, time: nat)
    requires Ordered(s) && |Bucket(s, c)| >= BUCKET_SIZE
    requires forall x :: x in Bucket(s, c) ==> Stamp(x) == time
    ensures Bucket(Evicted(s, c), c) == Bucket(s, c)[..|Bucket(s, c)| - 1]
  {
    var m := Upper(s, c) - 1;
    var before, after := Bucket(s, c), Bucket(Evicted(s, c), c);
    assert after == Bucket(RemoveAt(s, m), c) by {
      EqualTimesOldest(s, c, time);
      BucketCount(s, c);
    }
    assert before == after + [s[m].contact] by {
      EqualTimesOldest(s, c, time);
      LastOfBucket(s, c, m);
    }
    DropLast(after, s[m].contact);
  }

  lemma DropLast(l: seq<Contact>, x: Contact)
    ensures (l + [x])[..|l + [x]| - 1] == l
  {
  }

  // The last entry of a bucket taken out of the table.
  lemma LastOfBucket(s: seq<Entry>, c: nat, m: nat)
    requires Ordered(s) && m < |s| && s[m].common == c && m + 1 == Upper(s, c)
    ensures Bucket(s, c) == Bucket(RemoveAt(s, m), c) + [s[m].contact]
  {
    var front, back := Bucket(s[..m], c), Bucket(s[m + 1..], c);
    RemoveBuckets(s, m, c);
    NothingBehindUpper(s, c);
    assert back == [] && front + back == front && front + [s[m].contact] + back == front + [s[m].contact];
  }

  lemma EqualTimesOldest(s: seq<Entry>, c: nat, time: nat)
    requires Ordered(s) && Bucket(s, c) != []
    requires forall x :: x in Bucket(s, c) ==> Stamp(x) == time
    ensures Lower(s, c) < Upper(s, c) && Oldest(s, Lower(s, c), Upper(s, c)) == Upper(s, c) - 1
    ensures s[Upper(s, c) - 1].common == c
  {
    BucketCount(s, c);
    var lo, hi := Lower(s, c), Upper(s, c);
    var m := Oldest(s, lo, hi);
    BucketEntries(s, c);
    Segment(s, c, m);
    Segment(s, c, hi - 1);
    assert s[m].contact in Bucket(s, c) && s[hi - 1].contact in Bucket(s, c);
  }
}
