// Keeping the k closest of a stream of contacts, for an arbitrary distance.
//
// A contact is identified here by its distance alone, so nothing below needs two
// different key texts to denote different points.
module Closest {
  import opened Wrappers
  import opened Contacts

  type Metric = Contact -> nat

  // ------------------------------------------------------ the sorted map

  // The contents of a distance-sorted `std::map`, in iteration order.
  ghost predicate Sorted(d: Metric, s: seq<Contact>) {
    forall i, j :: 0 <= i < j < |s| ==> d(s[i]) < d(s[j])
  }

  // `map[d(c)] = c`.
  function Put(d: Metric, s: seq<Contact>, c: Contact): seq<Contact> {
    if s == [] || d(c) < d(s[0]) then [c] + s
    else if d(c) == d(s[0]) then [c] + s[1..]
    else [s[0]] + Put(d, s[1..], c)
  }

  function PutAll(d: Metric, s: seq<Contact>, cs: seq<Contact>): seq<Contact> {
    if cs == [] then s
    else Put(d, PutAll(d, s, cs[..|cs| - 1]), cs[|cs| - 1])
  }

  function Take(s: seq<Contact>, k: nat): seq<Contact> {
    if |s| <= k then s else s[..k]
  }

  // The new shortlist after one nonempty batch: the batch enters first and the
  // old shortlist overrides it.
  function Merge(d: Metric, k: nat, short: seq<Contact>, batch: seq<Contact>): seq<Contact> {
    if batch == [] then short
    else Take(PutAll(d, PutAll(d, [], batch), short), k)
  }

  function Shortlist(d: Metric, k: nat, batches: seq<seq<Contact>>): seq<Contact> {
    if batches == [] then []
    else Merge(d, k, Shortlist(d, k, batches[..|batches| - 1]), batches[|batches| - 1])
  }

  // --------------------------------------------------- what was offered

  predicate NoneAfter(d: Metric, cs: seq<Contact>, x: nat, i: nat) {
    forall j :: i < j < |cs| ==> d(cs[j]) != x
  }

  // The last contact of the list at distance x.
  function Last(d: Metric, cs: seq<Contact>, x: nat): (r: Option<Contact>)
    ensures r.Some? ==> exists i :: 0 <= i < |cs| && cs[i] == r.value && d(cs[i]) == x && NoneAfter(d, cs, x, i)
    ensures r.None? ==> forall c :: c in cs ==> d(c) != x
  {
    if cs == [] then None
    else
      var c := cs[|cs| - 1];
      if d(c) == x then Some(c) else Last(d, cs[..|cs| - 1], x)
  }

  // The record that counts for distance x: the last one in the first batch that mentions x.
  function Record(d: Metric, batches: seq<seq<Contact>>, x: nat): Option<Contact> {
    if batches == [] then None
    else OrElse(Record(d, batches[..|batches| - 1], x), Last(d, batches[|batches| - 1], x))
  }

  // Independent description of the shortlist: sorted, each entry the record for its
  // distance, and whatever was offered but is missing is farther than k listed contacts.
  ghost predicate IsTopK(d: Metric, k: nat, batches: seq<seq<Contact>>, s: seq<Contact>) {
    && Sorted(d, s) && |s| <= k
    && (forall i :: 0 <= i < |s| ==> Record(d, batches, d(s[i])) == Some(s[i]))
    && (forall x :: Record(d, batches, x).Some? ==> Listed(d, s, x) || Beyond(d, k, s, x))
  }

  ghost predicate Listed(d: Metric, s: seq<Contact>, x: nat) {
    exists i :: 0 <= i < |s| && d(s[i]) == x
  }

  ghost predicate Beyond(d: Metric, k: nat, s: seq<Contact>, x: nat) {
    |s| == k && forall i :: 0 <= i < |s| ==> d(s[i]) < x
  }

  // -------------------------------------------------------- map lemmas

  lemma {:induction false} PutContents(d: Metric, s: seq<Contact>, c: Contact)
    requires Sorted(d, s)
    ensures forall e :: e in Put(d, s, c) <==> e == c || (e in s && d(e) != d(c))
  {
    if s == [] || d(c) < d(s[0]) {
    } else if d(c) == d(s[0]) {
      assert s == [s[0]] + s[1..];
    } else {
      PutContents(d, s[1..], c);
      assert s == [s[0]] + s[1..];
    }
  }

  lemma {:induction false} PutSorted(d: Metric, s: seq<Contact>, c: Contact)
    requires Sorted(d, s)
    ensures Sorted(d, Put(d, s, c))
  {
    if s == [] || d(c) < d(s[0]) {
    } else if d(c) == d(s[0]) {
    } else {
      var p := Put(d, s[1..], c);
      PutSorted(d, s[1..], c);
      PutContents(d, s[1..], c);
      forall i | 0 <= i < |p| ensures d(s[0]) < d(p[i]) {
        assert p[i] in p;
      }
    }
  }

  // A sorted list holds one contact per distance.
  lemma LastOfSorted(d: Metric, s: seq<Contact>, c: Contact)
    requires Sorted(d, s)
    ensures c in s <==> Last(d, s, d(c)) == Some(c)
  {
    if c in s {
      var i :| 0 <= i < |s| && s[i] == c;
      var e := Last(d, s, d(c)).value;
      var j :| 0 <= j < |s| && s[j] == e;
    }
  }

  lemma PutLast(d: Metric, s: seq<Contact>, c: Contact, x: nat)
    requires Sorted(d, s)
    ensures Last(d, Put(d, s, c), x) == if d(c) == x then Some(c) else Last(d, s, x)
  {
    PutSorted(d, s, c);
    PutContents(d, s, c);
    var p := Put(d, s, c);
    if d(c) == x {
      LastOfSorted(d, p, c);
    } else {
      var before, after := Last(d, s, x), Last(d, p, x);
      if before.Some? { LastOfSorted(d, p, before.value); }
      if after.Some? { assert after.value in s; }
    }
  }

  lemma {:induction false} PutAllLast(d: Metric, s: seq<Contact>, cs: seq<Contact>)
    requires Sorted(d, s)
    ensures Sorted(d, PutAll(d, s, cs))
    ensures forall x :: Last(d, PutAll(d, s, cs), x) == OrElse(Last(d, cs, x), Last(d, s, x))
  {
    if cs != [] {
      var front, c := cs[..|cs| - 1], cs[|cs| - 1];
      PutAllLast(d, s, front);
      var p := PutAll(d, s, front);
      PutSorted(d, p, c);
      forall x ensures Last(d, PutAll(d, s, cs), x) == OrElse(Last(d, cs, x), Last(d, s, x)) {
        PutLast(d, p, c, x);
      }
    }
  }

  // The map from which `Merge` takes its prefix.
  function Combined(d: Metric, short: seq<Contact>, batch: seq<Contact>): seq<Contact> {
    PutAll(d, PutAll(d, [], batch), short)
  }

  lemma CombinedLast(d: Metric, short: seq<Contact>, batch: seq<Contact>)
    ensures Sorted(d, Combined(d, short, batch))
    ensures forall x :: Last(d, Combined(d, short, batch), x) == OrElse(Last(d, short, x), Last(d, batch, x))
  {
    PutAllLast(d, [], batch);
    PutAllLast(d, PutAll(d, [], batch), short);
  }

  // Counting: a sorted list that contains every distance of s below position i has i >= |s|.
  lemma {:induction false} EnoughBelow(d: Metric, s: seq<Contact>, f: seq<Contact>, i: nat)
    requires Sorted(d, s) && Sorted(d, f) && i <= |f|
    requires forall j :: 0 <= j < |s| ==> Listed(d, f[..i], d(s[j]))
    ensures i >= |s|
  {
    if |s| > 0 {
      var n := |s| - 1;
      var m :| 0 <= m < i && d(f[..i][m]) == d(s[n]);
      forall j | 0 <= j < n ensures Listed(d, f[..m], d(s[..n][j])) {
        assert Listed(d, f[..i], d(s[j]));
        var a :| 0 <= a < i && d(f[..i][a]) == d(s[j]);
        assert d(s[j]) < d(s[n]);
        assert a < m;
        assert f[..m][a] == f[a];
      }
      EnoughBelow(d, s[..n], f, m);
    }
  }

  // Position by position, a sorted list that contains all of s is at least as close as s.
  lemma Dominates(d: Metric, s: seq<Contact>, f: seq<Contact>, n: nat)
    requires Sorted(d, s) && Sorted(d, f) && n < |s|
    requires forall j :: 0 <= j < |s| ==> Listed(d, f, d(s[j]))
    ensures n < |f| && d(f[n]) <= d(s[n])
  {
    assert Listed(d, f, d(s[n]));
    var m :| 0 <= m < |f| && d(f[m]) == d(s[n]);
    var s', i := s[..n + 1], m + 1;
    forall j | 0 <= j < |s'| ensures Listed(d, f[..i], d(s'[j])) {
      assert Listed(d, f, d(s[j]));
      var a :| 0 <= a < |f| && d(f[a]) == d(s[j]);
      assert d(s[j]) <= d(s[n]);
      assert a <= m;
      assert f[..i][a] == f[a];
    }
    EnoughBelow(d, s', f, i);
  }

  // --------------------------------------------------- streaming top-k

  // One merge keeps the description, for any batch.
  lemma MergeKeepsTopK(d: Metric, k: nat, batches: seq<seq<Contact>>, s: seq<Contact>, batch: seq<Contact>)
    requires IsTopK(d, k, batches, s)
    ensures IsTopK(d, k, batches + [batch], Merge(d, k, s, batch))
  {
    var more := batches + [batch];
    assert more[..|batches|] == batches;
    if batch == [] {
      assert forall x :: Record(d, more, x) == Record(d, batches, x);
      return;
    }
    var f := Combined(d, s, batch);
    var t := Take(f, k);
    CombinedLast(d, s, batch);
    CombinedContains(d, s, batch);
    forall i | 0 <= i < |t| ensures Record(d, more, d(t[i])) == Some(t[i]) {
      MergedEntry(d, k, batches, s, batch, i);
    }
    forall x | Record(d, more, x).Some? ensures Listed(d, t, x) || Beyond(d, k, t, x) {
      MergedCoverage(d, k, batches, s, batch, x);
    }
  }

  lemma CombinedContains(d: Metric, s: seq<Contact>, batch: seq<Contact>)
    requires Sorted(d, s)
    ensures forall j :: 0 <= j < |s| ==> Listed(d, Combined(d, s, batch), d(s[j]))
  {
    CombinedLast(d, s, batch);
    var f := Combined(d, s, batch);
    forall j | 0 <= j < |s| ensures Listed(d, f, d(s[j])) {
      LastOfSorted(d, s, s[j]);
      assert Last(d, f, d(s[j])) == Some(s[j]);
      assert s[j] in f;
    }
  }

  lemma MergedEntry(d: Metric, k: nat, batches: seq<seq<Contact>>, s: seq<Contact>, batch: seq<Contact>, i: nat)
    requires IsTopK(d, k, batches, s) && i < |Take(Combined(d, s, batch), k)|
    ensures Record(d, batches + [batch], d(Combined(d, s, batch)[i])) == Some(Combined(d, s, batch)[i])
  {
    var f := Combined(d, s, batch);
    var x := d(f[i]);
    assert (batches + [batch])[..|batches|] == batches;
    CombinedLast(d, s, batch);
    LastOfSorted(d, f, f[i]);
    if Last(d, s, x).None? && Record(d, batches, x).Some? {
      // x was dropped earlier, so k closer contacts precede it in f.
      UnlistedNotLast(d, s, x);
      assert Beyond(d, k, s, x);
      CombinedContains(d, s, batch);
      BehindAll(d, s, f, i);
    }
  }

  lemma UnlistedNotLast(d: Metric, s: seq<Contact>, x: nat)
    ensures Last(d, s, x).None? <==> !Listed(d, s, x)
  {
    if Listed(d, s, x) {
      var i :| 0 <= i < |s| && d(s[i]) == x;
      assert s[i] in s;
    }
  }

  lemma BehindAll(d: Metric, s: seq<Contact>, f: seq<Contact>, i: nat)
    requires Sorted(d, s) && Sorted(d, f) && i < |f|
    requires forall j :: 0 <= j < |s| ==> Listed(d, f, d(s[j])) && d(s[j]) < d(f[i])
    ensures i >= |s|
  {
    forall j | 0 <= j < |s| ensures Listed(d, f[..i], d(s[j])) {
      assert Listed(d, f, d(s[j]));
      var a :| 0 <= a < |f| && d(f[a]) == d(s[j]);
      assert a < i;
      assert f[..i][a] == f[a];
    }
    EnoughBelow(d, s, f, i);
  }

  lemma MergedCoverage(d: Metric, k: nat, batches: seq<seq<Contact>>, s: seq<Contact>, batch: seq<Contact>, x: nat)
    requires IsTopK(d, k, batches, s) && Record(d, batches + [batch], x).Some?
    ensures var t := Take(Combined(d, s, batch), k); Listed(d, t, x) || Beyond(d, k, t, x)
  {
    var f := Combined(d, s, batch);
    var t := Take(f, k);
    assert (batches + [batch])[..|batches|] == batches;
    CombinedLast(d, s, batch);
    if Last(d, f, x).Some? {
      var i :| 0 <= i < |f| && f[i] == Last(d, f, x).value;
      if i < k { assert t[i] == f[i]; }
    } else {
      UnlistedNotLast(d, s, x);
      assert Beyond(d, k, s, x);
      CombinedContains(d, s, batch);
      forall i | 0 <= i < k ensures i < |f| && d(f[i]) < x {
        Dominates(d, s, f, i);
      }
      if k > 0 { Dominates(d, s, f, k - 1); }
    }
  }

  // After any sequence of batches the shortlist is the k closest of all contacts ever offered.
  lemma {:induction false} ShortlistIsTopK(d: Metric, k: nat, batches: seq<seq<Contact>>)
    ensures IsTopK(d, k, batches, Shortlist(d, k, batches))
  {
    if batches != [] {
      var n := |batches| - 1;
      ShortlistIsTopK(d, k, batches[..n]);
      MergeKeepsTopK(d, k, batches[..n], Shortlist(d, k, batches[..n]), batches[n]);
      assert batches[..n] + [batches[n]] == batches;
    }
  }

  // ------------------------------------------------- consequences

  // All contacts offered by the batches.
  function Offered(batches: seq<seq<Contact>>): set<Contact> {
    if batches == [] then {}
    else Offered(batches[..|batches| - 1]) + Elements(batches[|batches| - 1])
  }

  lemma {:induction false} RecordOffered(d: Metric, batches: seq<seq<Contact>>, x: nat)
    ensures Record(d, batches, x).Some?
            ==> Record(d, batches, x).value in Offered(batches) && d(Record(d, batches, x).value) == x
    ensures Record(d, batches, x).None? ==> forall c :: c in Offered(batches) ==> d(c) != x
  {
    if batches != [] { RecordOffered(d, batches[..|batches| - 1], x); }
  }

  ghost predicate SameRecords(d: Metric, A: seq<seq<Contact>>, B: seq<seq<Contact>>) {
    forall x :: Record(d, A, x) == Record(d, B, x)
  }

  // The description has one solution, so it defines the shortlist.
  lemma TopKUnique(d: Metric, k: nat, A: seq<seq<Contact>>, B: seq<seq<Contact>>, s: seq<Contact>, t: seq<Contact>)
    requires IsTopK(d, k, A, s) && IsTopK(d, k, B, t) && SameRecords(d, A, B)
    ensures s == t
  {
    assert SameRecords(d, B, A);
    TopKAgree(d, k, A, B, s, t, |s|);
    TopKAgree(d, k, B, A, t, s, |t|);
  }

  lemma {:induction false} TopKAgree(d: Metric, k: nat, A: seq<seq<Contact>>, B: seq<seq<Contact>>, s: seq<Contact>,
      t: seq<Contact>, i: nat)
    requires IsTopK(d, k, A, s) && IsTopK(d, k, B, t)
    requires SameRecords(d, A, B) && i <= |s|
    ensures i <= |t| && forall j :: 0 <= j < i ==> s[j] == t[j]
  {
    hide IsTopK, SameRecords;
    if i > 0 {
      var n := i - 1;
      TopKAgree(d, k, A, B, s, t, n);
      NextAgrees(d, k, A, B, s, t, n);
    }
  }

  lemma NextAgrees(d: Metric, k: nat, A: seq<seq<Contact>>, B: seq<seq<Contact>>, s: seq<Contact>, t: seq<Contact>,
      n: nat)
    requires IsTopK(d, k, A, s) && IsTopK(d, k, B, t) && SameRecords(d, A, B)
    requires n < |s| && n <= |t| && forall j :: 0 <= j < n ==> s[j] == t[j]
    ensures n < |t| && s[n] == t[n]
  {
    assert Record(d, A, d(s[n])) == Some(s[n]);
    NextNotBefore(d, k, A, s, t, n);
    NextNotBefore(d, k, B, t, s, n);
    assert Record(d, B, d(t[n])) == Some(t[n]);
  }

  // With equal prefixes of length n, the next entry of t exists and is no farther than that of s.
  lemma NextNotBefore(d: Metric, k: nat, A: seq<seq<Contact>>, s: seq<Contact>, t: seq<Contact>, n: nat)
    requires Sorted(d, s) && |s| <= k && n < |s| && Record(d, A, d(s[n])).Some?
    requires Sorted(d, t) && n <= |t|
    requires forall x :: Record(d, A, x).Some? ==> Listed(d, t, x) || Beyond(d, k, t, x)
    requires forall j :: 0 <= j < n ==> s[j] == t[j]
    ensures n < |t| && d(t[n]) <= d(s[n])
  {
    var x := d(s[n]);
    if Listed(d, t, x) {
      var m :| 0 <= m < |t| && d(t[m]) == x;
    }
  }

  lemma SameRecordsSameShortlist(d: Metric, k: nat, A: seq<seq<Contact>>, B: seq<seq<Contact>>)
    requires SameRecords(d, A, B)
    ensures Shortlist(d, k, A) == Shortlist(d, k, B)
  {
    ShortlistIsTopK(d, k, A);
    ShortlistIsTopK(d, k, B);
    TopKUnique(d, k, A, B, Shortlist(d, k, A), Shortlist(d, k, B));
  }

  // The shortlist depends on nothing but the set of contacts offered, when no two of
  // them are at the same distance: splitting and reordering messages is immaterial.
  lemma ShortlistDependsOnSet(d: Metric, k: nat, A: seq<seq<Contact>>, B: seq<seq<Contact>>)
    requires Offered(A) == Offered(B)
    requires forall c, e :: c in Offered(A) && e in Offered(A) && d(c) == d(e) ==> c == e
    ensures Shortlist(d, k, A) == Shortlist(d, k, B)
  {
    forall x ensures Record(d, A, x) == Record(d, B, x) {
      RecordOffered(d, A, x);
      RecordOffered(d, B, x);
    }
    SameRecordsSameShortlist(d, k, A, B);
  }

  // The earlier batches decide where they mention the distance.
  lemma {:induction false} RecordConcat(d: Metric, A: seq<seq<Contact>>, B: seq<seq<Contact>>, x: nat)
    ensures Record(d, A + B, x) == OrElse(Record(d, A, x), Record(d, B, x))
  {
    if B == [] {
      assert A + B == A;
    } else {
      var n := |B| - 1;
      RecordConcat(d, A, B[..n], x);
      assert (A + B)[..|A + B| - 1] == A + B[..n];
    }
  }

  // So later batches never change the record of a known contact.
  lemma RecordStable(d: Metric, A: seq<seq<Contact>>, B: seq<seq<Contact>>, x: nat)
    requires Record(d, A, x).Some?
    ensures Record(d, A + B, x) == Record(d, A, x)
  {
    RecordConcat(d, A, B, x);
  }

  // A contact that was offered and is not listed never comes back.
  lemma DroppedNeverReturns(d: Metric, k: nat, A: seq<seq<Contact>>, B: seq<seq<Contact>>, x: nat)
    requires Record(d, A, x).Some? && !Listed(d, Shortlist(d, k, A), x)
    ensures !Listed(d, Shortlist(d, k, A + B), x)
  {
    var s, t := Shortlist(d, k, A), Shortlist(d, k, A + B);
    ShortlistIsTopK(d, k, A);
    ShortlistIsTopK(d, k, A + B);
    if Listed(d, t, x) {
      var i :| 0 <= i < |t| && d(t[i]) == x;
      forall j | 0 <= j < |s| ensures Listed(d, t, d(s[j])) && d(s[j]) < d(t[i]) {
        RecordStable(d, A, B, d(s[j]));
      }
      BehindAll(d, s, t, i);
    }
  }

  function Distances(d: Metric, cs: set<Contact>): set<nat> {
    set c | c in cs :: d(c)
  }

  lemma {:induction false} SortedSize(d: Metric, s: seq<Contact>)
    requires Sorted(d, s)
    ensures |Distances(d, Elements(s))| == |s|
  {
    if s != [] {
      var n := |s| - 1;
      SortedSize(d, s[..n]);
      var front := Distances(d, Elements(s[..n]));
      assert s == s[..n] + [s[n]];
      assert d(s[n]) !in front;
      assert Distances(d, Elements(s)) == front + {d(s[n])};
    } else {
      assert Distances(d, Elements(s)) == {};
    }
  }

  // The shortlist is full, or it holds every distinct contact ever offered.
  lemma ShortlistSize(d: Metric, k: nat, batches: seq<seq<Contact>>)
    ensures var n := |Distances(d, Offered(batches))|;
            |Shortlist(d, k, batches)| == if n < k then n else k
  {
    var s := Shortlist(d, k, batches);
    var listed, all := Distances(d, Elements(s)), Distances(d, Offered(batches));
    ShortlistIsTopK(d, k, batches);
    SortedSize(d, s);
    forall x | x in listed ensures x in all {
      RecordOffered(d, batches, x);
      var c :| c in s && d(c) == x;
      var i :| 0 <= i < |s| && s[i] == c;
      assert Record(d, batches, d(s[i])).Some?;
    }
    SubsetSize(listed, all);
    if |s| < k {
      forall x | x in all ensures x in listed {
        RecordOffered(d, batches, x);
        assert Listed(d, s, x);
        var i :| 0 <= i < |s| && d(s[i]) == x;
        assert s[i] in s;
      }
      assert listed == all;
    }
  }

  // ------------------------------------------------------ progress

  // Sum of the distances with the empty slots counted as `far`.
  function Spread(d: Metric, far: nat, s: seq<Contact>, k: nat): nat {
    if k == 0 then 0
    else (if k - 1 < |s| then d(s[k - 1]) else far) + Spread(d, far, s, k - 1)
  }

  lemma {:induction false} SpreadDecreases(d: Metric, far: nat, s: seq<Contact>, t: seq<Contact>, k: nat, j: nat)
    requires |s| <= |t| && (forall c :: c in t ==> d(c) < far)
    requires forall i :: 0 <= i < |s| ==> d(t[i]) <= d(s[i])
    ensures Spread(d, far, t, k) <= Spread(d, far, s, k)
    ensures j < k && j < |t| && (j < |s| ==> d(t[j]) < d(s[j])) ==> Spread(d, far, t, k) < Spread(d, far, s, k)
  {
    if k > 0 { SpreadDecreases(d, far, s, t, k - 1, j); }
  }

  // A batch that changes a shortlist brings it strictly closer.
  lemma MergeImproves(d: Metric, far: nat, k: nat, s: seq<Contact>, batch: seq<Contact>)
    requires Sorted(d, s) && |s| <= k && Merge(d, k, s, batch) != s
    requires forall c: Contact :: d(c) < far
    ensures Spread(d, far, Merge(d, k, s, batch), k) < Spread(d, far, s, k)
  {
    var f := Combined(d, s, batch);
    var t := Take(f, k);
    CombinedLast(d, s, batch);
    CombinedContains(d, s, batch);
    forall i | 0 <= i < |s| ensures i < |f| && d(t[i]) <= d(s[i]) {
      Dominates(d, s, f, i);
    }
    if |s| > 0 { Dominates(d, s, f, |s| - 1); }
    assert |s| <= |t|;
    if |s| < |t| {
      SpreadDecreases(d, far, s, t, k, |s|);
    } else {
      var j :| 0 <= j < |s| && s[j] != t[j];
      if d(t[j]) == d(s[j]) {
        LastOfSorted(d, s, s[j]);
        LastOfSorted(d, f, f[j]);
      }
      SpreadDecreases(d, far, s, t, k, j);
    }
  }
}
