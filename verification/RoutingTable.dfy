// The k-buckets: a multimap from common-prefix length to contact, and its proximity cache.
module RoutingTable {
  import opened Wrappers
  import opened Contacts

  /** One pair of the multimap. */
  datatype Entry = Entry(common: nat, contact: Contact)

  // ------------------------------------------------ the table as a value

  ghost predicate Ordered(s: seq<Entry>) {
    forall i, j :: 0 <= i <= j < |s| ==> s[i].common <= s[j].common
  }

  // `lower_bound` and `upper_bound`: positions of the pairs whose first part is c.
  function Lower(s: seq<Entry>, c: nat): (n: nat)
    ensures n <= |s| && (forall i :: 0 <= i < n ==> s[i].common < c)
    ensures n < |s| ==> s[n].common >= c
  {
    if s == [] || s[0].common >= c then 0 else 1 + Lower(s[1..], c)
  }

  function Upper(s: seq<Entry>, c: nat): (n: nat)
    ensures n <= |s| && (forall i :: 0 <= i < n ==> s[i].common <= c)
    ensures n < |s| ==> s[n].common > c
  {
    if s == [] || s[0].common > c then 0 else 1 + Upper(s[1..], c)
  }

  function FindIndex(s: seq<Entry>, k: string): (n: nat)
    ensures n <= |s| && (forall i :: 0 <= i < n ==> s[i].contact.key != k)
    ensures n < |s| ==> s[n].contact.key == k
  {
    if s == [] || s[0].contact.key == k then 0 else 1 + FindIndex(s[1..], k)
  }

  function Stamp(c: Contact): nat {
    if c.time.Some? then c.time.value else 0
  }

  // The entry evicted from [lo, hi): the smallest time, the later entry among equals.
  function Oldest(s: seq<Entry>, lo: nat, hi: nat): (m: nat)
    requires lo < hi <= |s|
    ensures lo <= m < hi
    ensures forall j :: lo <= j < hi ==> Stamp(s[m].contact) <= Stamp(s[j].contact)
    ensures forall j :: m < j < hi ==> Stamp(s[m].contact) < Stamp(s[j].contact)
  {
    if hi == lo + 1 then lo
    else
      var m := Oldest(s, lo, hi - 1);
      if Stamp(s[hi - 1].contact) <= Stamp(s[m].contact) then hi - 1 else m
  }

  function RemoveAt(s: seq<Entry>, i: nat): seq<Entry>
    requires i < |s|
  {
    s[..i] + s[i + 1..]
  }

  function InsertAt(s: seq<Entry>, i: nat, e: Entry): seq<Entry>
    requires i <= |s|
  {
    s[..i] + [e] + s[i..]
  }

  // Make room for one more entry in bucket c.
  function Evicted(s: seq<Entry>, c: nat): seq<Entry> {
    var lo, hi := Lower(s, c), Upper(s, c);
    if lo + BUCKET_SIZE <= hi then RemoveAt(s, Oldest(s, lo, hi)) else s
  }

  function Added(local: string, s: seq<Entry>, k: string, ep: Endpoint, now: nat): seq<Entry> {
    var c := SharedBits(local, k);
    var e := Entry(c, Contact(k, ep, Some(now)));
    if k == local then s
    else if FindIndex(s, k) < |s| then s[FindIndex(s, k) := e]
    else InsertAt(Evicted(s, c), Upper(Evicted(s, c), c), e)
  }

  // What holds of the table in every reachable state.
  ghost predicate Table(local: string, s: seq<Entry>) {
    Ordered(s) && Rows(local, s) && UniqueKeys(s) && Sizes(s)
  }

  ghost predicate Rows(local: string, s: seq<Entry>) {
    forall i :: 0 <= i < |s| ==> s[i].common == SharedBits(local, s[i].contact.key) && s[i].contact.key != local
  }

  ghost predicate UniqueKeys(s: seq<Entry>) {
    forall i, j :: 0 <= i < j < |s| ==> s[i].contact.key != s[j].contact.key
  }

  ghost predicate Sizes(s: seq<Entry>) {
    forall c: nat :: |Bucket(s, c)| <= BUCKET_SIZE
  }

  // The contacts of bucket c, in multimap order.
  function Bucket(s: seq<Entry>, c: nat): seq<Contact> {
    if s == [] then []
    else Bucket(s[..|s| - 1], c) + (if s[|s| - 1].common == c then [s[|s| - 1].contact] else [])
  }

  lemma {:induction false} BucketConcat(s: seq<Entry>, t: seq<Entry>, c: nat)
    ensures Bucket(s + t, c) == Bucket(s, c) + Bucket(t, c)
  {
    if t == [] {
      assert s + t == s;
    } else {
      var n := |t| - 1;
      BucketConcat(s, t[..n], c);
      assert (s + t)[..|s + t| - 1] == s + t[..n];
    }
  }

  lemma BucketSplit(s: seq<Entry>, e: Entry, t: seq<Entry>, c: nat)
    ensures Bucket(s + [e] + t, c) == Bucket(s, c) + (if e.common == c then [e.contact] else []) + Bucket(t, c)
  {
    BucketConcat(s + [e], t, c);
    BucketConcat(s, [e], c);
    assert [e][..0] == [];
  }

  // In an ordered table the bounds count the bucket.
  lemma {:induction false} BucketCount(s: seq<Entry>, c: nat)
    requires Ordered(s)
    ensures Upper(s, c) == Lower(s, c) + |Bucket(s, c)|
  {
    if s != [] {
      var n := |s| - 1;
      var e, t := s[n], s[..n];
      assert s == t + [e];
      BucketCount(t, c);
      LowerSnoc(t, e, c);
      UpperSnoc(t, e, c);
      assert Upper(t, c) < n ==> t[Upper(t, c)].common <= e.common;
      assert Lower(t, c) < n ==> t[Lower(t, c)].common <= e.common;
    }
  }

  lemma {:induction false} LowerSnoc(t: seq<Entry>, e: Entry, c: nat)
    ensures Lower(t + [e], c) == if Lower(t, c) < |t| || e.common >= c then Lower(t, c) else |t| + 1
  {
    if t != [] {
      assert (t + [e])[1..] == t[1..] + [e];
      LowerSnoc(t[1..], e, c);
    } else {
      assert (t + [e])[1..] == [];
    }
  }

  lemma {:induction false} UpperSnoc(t: seq<Entry>, e: Entry, c: nat)
    ensures Upper(t + [e], c) == if Upper(t, c) < |t| || e.common > c then Upper(t, c) else |t| + 1
  {
    if t != [] {
      assert (t + [e])[1..] == t[1..] + [e];
      UpperSnoc(t[1..], e, c);
    } else {
      assert (t + [e])[1..] == [];
    }
  }

  // Bucket c is the segment between the bounds.
  lemma Segment(s: seq<Entry>, c: nat, i: nat)
    requires Ordered(s) && i < |s|
    ensures s[i].common == c <==> Lower(s, c) <= i < Upper(s, c)
  {
  }

  lemma RemoveBuckets(s: seq<Entry>, m: nat, c: nat)
    requires m < |s|
    ensures Bucket(s, c)
            == Bucket(s[..m], c) + (if s[m].common == c then [s[m].contact] else []) + Bucket(s[m + 1..], c)
    ensures Bucket(RemoveAt(s, m), c) == Bucket(s[..m], c) + Bucket(s[m + 1..], c)
  {
    assert s == s[..m] + [s[m]] + s[m + 1..];
    BucketSplit(s[..m], s[m], s[m + 1..], c);
    BucketConcat(s[..m], s[m + 1..], c);
  }

  lemma RemoveAtIndex(s: seq<Entry>, m: nat, i: nat)
    requires m < |s| && i < |s| - 1
    ensures RemoveAt(s, m)[i] == if i < m then s[i] else s[i + 1]
  {
  }

  lemma RemoveKeepsTable(local: string, s: seq<Entry>, m: nat)
    requires Table(local, s) && m < |s|
    ensures Table(local, RemoveAt(s, m))
  {
    var r := RemoveAt(s, m);
    forall i | 0 <= i < |r| ensures r[i] == if i < m then s[i] else s[i + 1] {
      RemoveAtIndex(s, m, i);
    }
    forall c: nat ensures |Bucket(r, c)| <= BUCKET_SIZE {
      RemoveBuckets(s, m, c);
      assert |Bucket(s, c)| <= BUCKET_SIZE;
    }
  }

  lemma InsertAtIndex(s: seq<Entry>, n: nat, e: Entry, i: nat)
    requires n <= |s| && i <= |s|
    ensures InsertAt(s, n, e)[i] == if i < n then s[i] else if i == n then e else s[i - 1]
  {
  }

  lemma InsertOrdered(s: seq<Entry>, e: Entry)
    requires Ordered(s)
    ensures Ordered(InsertAt(s, Upper(s, e.common), e))
  {
    var n := Upper(s, e.common);
    var r := InsertAt(s, n, e);
    forall i, j | 0 <= i <= j < |r| ensures r[i].common <= r[j].common {
      InsertAtIndex(s, n, e, i);
      InsertAtIndex(s, n, e, j);
    }
  }

  lemma InsertUnique(s: seq<Entry>, n: nat, e: Entry)
    requires UniqueKeys(s) && n <= |s| && FindIndex(s, e.contact.key) == |s|
    ensures UniqueKeys(InsertAt(s, n, e))
  {
    var r := InsertAt(s, n, e);
    forall i, j | 0 <= i < j < |r| ensures r[i].contact.key != r[j].contact.key {
      InsertAtIndex(s, n, e, i);
      InsertAtIndex(s, n, e, j);
    }
  }

  lemma InsertRows(local: string, s: seq<Entry>, n: nat, e: Entry)
    requires Rows(local, s) && n <= |s|
    requires e.common == SharedBits(local, e.contact.key) && e.contact.key != local
    ensures Rows(local, InsertAt(s, n, e))
  {
    var r := InsertAt(s, n, e);
    forall i | 0 <= i < |r| ensures r[i].common == SharedBits(local, r[i].contact.key) && r[i].contact.key != local {
      InsertAtIndex(s, n, e, i);
    }
  }

  lemma InsertBuckets(s: seq<Entry>, e: Entry, c: nat)
    requires Ordered(s)
    ensures Bucket(InsertAt(s, Upper(s, e.common), e), c) == Bucket(s, c) + (if e.common == c then [e.contact] else [])
  {
    var n := Upper(s, e.common);
    InsertSplit(s, n, e, c);
    if e.common == c {
      NothingBehindUpper(s, e.common);
      var a, b, x := Bucket(s[..n], c), Bucket(s[n..], c), [e.contact];
      assert a + x + b == a + b + x;
    }
  }

  lemma InsertSplit(s: seq<Entry>, n: nat, e: Entry, c: nat)
    requires n <= |s|
    ensures Bucket(InsertAt(s, n, e), c)
            == Bucket(s[..n], c) + (if e.common == c then [e.contact] else []) + Bucket(s[n..], c)
    ensures Bucket(s, c) == Bucket(s[..n], c) + Bucket(s[n..], c)
  {
    assert s == s[..n] + s[n..];
    BucketSplit(s[..n], e, s[n..], c);
    BucketConcat(s[..n], s[n..], c);
  }

  lemma NothingBehindUpper(s: seq<Entry>, c: nat)
    requires Ordered(s)
    ensures Bucket(s[Upper(s, c)..], c) == []
  {
    var n := Upper(s, c);
    forall i | n <= i < |s| ensures s[i].common > c {
      assert s[n].common <= s[i].common;
    }
    NothingAbove(s[n..], c);
  }

  lemma {:induction false} NothingAbove(s: seq<Entry>, c: nat)
    requires forall i :: 0 <= i < |s| ==> s[i].common > c
    ensures Bucket(s, c) == []
  {
    if s != [] { NothingAbove(s[..|s| - 1], c); }
  }

  lemma InsertKeepsTable(local: string, s: seq<Entry>, e: Entry)
    requires Table(local, s) && FindIndex(s, e.contact.key) == |s| && e.contact.key != local
    requires e.common == SharedBits(local, e.contact.key) && |Bucket(s, e.common)| < BUCKET_SIZE
    ensures Table(local, InsertAt(s, Upper(s, e.common), e))
  {
    InsertOrdered(s, e);
    InsertUnique(s, Upper(s, e.common), e);
    InsertRows(local, s, Upper(s, e.common), e);
    forall c: nat ensures |Bucket(InsertAt(s, Upper(s, e.common), e), c)| <= BUCKET_SIZE {
      InsertBuckets(s, e, c);
    }
  }

  lemma UpdateBuckets(s: seq<Entry>, i: nat, x: Contact, c: nat)
    requires i < |s|
    ensures Bucket(s[i := Entry(s[i].common, x)], c)
            == Bucket(s[..i], c) + (if s[i].common == c then [x] else []) + Bucket(s[i + 1..], c)
    ensures Bucket(s, c)
            == Bucket(s[..i], c) + (if s[i].common == c then [s[i].contact] else []) + Bucket(s[i + 1..], c)
  {
    assert s[i := Entry(s[i].common, x)] == s[..i] + [Entry(s[i].common, x)] + s[i + 1..];
    assert s == s[..i] + [s[i]] + s[i + 1..];
    BucketSplit(s[..i], Entry(s[i].common, x), s[i + 1..], c);
    BucketSplit(s[..i], s[i], s[i + 1..], c);
  }

  lemma UpdateKeepsTable(local: string, s: seq<Entry>, i: nat, x: Contact)
    requires Table(local, s) && i < |s| && x.key == s[i].contact.key
    ensures Table(local, s[i := Entry(s[i].common, x)])
  {
    var r := s[i := Entry(s[i].common, x)];
    forall c: nat ensures |Bucket(r, c)| <= BUCKET_SIZE {
      UpdateBuckets(s, i, x, c);
      assert |Bucket(s, c)| <= BUCKET_SIZE;
    }
  }

  lemma EvictMakesRoom(local: string, s: seq<Entry>, c: nat)
    requires Table(local, s)
    ensures Table(local, Evicted(s, c)) && |Bucket(Evicted(s, c), c)| < BUCKET_SIZE
    ensures forall e :: e in Evicted(s, c) ==> e in s
  {
    BucketCount(s, c);
    if Lower(s, c) + BUCKET_SIZE <= Upper(s, c) {
      var m := Oldest(s, Lower(s, c), Upper(s, c));
      Segment(s, c, m);
      RemoveKeepsTable(local, s, m);
      RemoveBuckets(s, m, c);
      assert |Bucket(s, c)| <= BUCKET_SIZE;
      RemoveMembers(s, m);
    }
  }

  lemma RemoveMembers(s: seq<Entry>, m: nat)
    requires m < |s|
    ensures forall e :: e in RemoveAt(s, m) ==> e in s
  {
  }

  lemma FindIndexAbsent(s: seq<Entry>, k: string)
    ensures FindIndex(s, k) == |s| <==> forall e :: e in s ==> e.contact.key != k
  {
    if FindIndex(s, k) < |s| { assert s[FindIndex(s, k)] in s; }
  }

  lemma AddKeepsTable(local: string, s: seq<Entry>, k: string, ep: Endpoint, now: nat)
    requires Table(local, s)
    ensures Table(local, Added(local, s, k, ep, now))
  {
    var c := SharedBits(local, k);
    if k != local {
      if FindIndex(s, k) < |s| {
        UpdateKeepsTable(local, s, FindIndex(s, k), Contact(k, ep, Some(now)));
      } else {
        EvictMakesRoom(local, s, c);
        FindIndexAbsent(s, k);
        FindIndexAbsent(Evicted(s, c), k);
        InsertKeepsTable(local, Evicted(s, c), Entry(c, Contact(k, ep, Some(now))));
      }
    }
  }

  lemma EmptyTable(local: string)
    ensures Table(local, [])
  {
  }
}
