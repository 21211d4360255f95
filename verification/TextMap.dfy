// `std::map` keyed by printed bit strings, as the list of its pairs in iteration order.
module TextMap {
  import opened Keys

  function TextPut<V>(m: seq<(string, V)>, k: string, v: V): seq<(string, V)> {
    if m == [] || TextLess(k, m[0].0) then [(k, v)] + m
    else if k == m[0].0 then [(k, v)] + m[1..]
    else [m[0]] + TextPut(m[1..], k, v)
  }

  // A new pair replaces at most the pair with the same key.
  lemma {:induction false} TextPutKeeps<V>(m: seq<(string, V)>, k: string, v: V)
    ensures (k, v) in TextPut(m, k, v)
    ensures forall p :: p in TextPut(m, k, v) ==> p == (k, v) || p in m
    ensures forall p :: p in m && p.0 != k ==> p in TextPut(m, k, v)
  {
    if m == [] || TextLess(k, m[0].0) {
    } else if k == m[0].0 {
      assert m == [m[0]] + m[1..];
    } else {
      TextPutKeeps(m[1..], k, v);
      assert m == [m[0]] + m[1..];
    }
  }

  lemma {:induction false} TextIrreflexive(s: string)
    ensures !TextLess(s, s)
  {
    if s != [] { TextIrreflexive(s[1..]); }
  }

  lemma {:induction false} TextTrichotomy(s: string, t: string)
    ensures TextLess(s, t) || s == t || TextLess(t, s)
  {
    if s != [] && t != [] {
      TextTrichotomy(s[1..], t[1..]);
      assert s == [s[0]] + s[1..] && t == [t[0]] + t[1..];
    }
  }

  lemma {:induction false} TextTransitive(s: string, t: string, u: string)
    requires TextLess(s, t) && TextLess(t, u)
    ensures TextLess(s, u)
  {
    if s != [] && s[0] == t[0] == u[0] { TextTransitive(s[1..], t[1..], u[1..]); }
  }

  ghost predicate TextSorted<V>(m: seq<(string, V)>) {
    forall i, j :: 0 <= i < j < |m| ==> TextLess(m[i].0, m[j].0)
  }

  // The map stays sorted, so it holds one pair for each key.
  lemma {:induction false} TextPutSorted<V>(m: seq<(string, V)>, k: string, v: V)
    requires TextSorted(m)
    ensures TextSorted(TextPut(m, k, v))
  {
    if m == [] {
    } else if TextLess(k, m[0].0) {
      forall j | 0 <= j < |m| ensures TextLess(k, m[j].0) {
        if j > 0 { TextTransitive(k, m[0].0, m[j].0); }
      }
    } else if k != m[0].0 {
      var r := TextPut(m[1..], k, v);
      TextPutSorted(m[1..], k, v);
      TextPutKeeps(m[1..], k, v);
      TextTrichotomy(k, m[0].0);
      forall j | 0 <= j < |r| ensures TextLess(m[0].0, r[j].0) {
        assert r[j] in r;
      }
    }
  }

  lemma TextSortedUnique<V>(m: seq<(string, V)>, p: (string, V), q: (string, V))
    requires TextSorted(m) && p in m && q in m && p.0 == q.0
    ensures p == q
  {
    TextIrreflexive(p.0);
  }

  // A new pair replaces exactly the pair with the same key.
  lemma TextPutExactly<V>(m: seq<(string, V)>, k: string, v: V, p: (string, V))
    requires TextSorted(m)
    ensures p in TextPut(m, k, v) <==> p == (k, v) || (p in m && p.0 != k)
  {
    TextPutKeeps(m, k, v);
    TextPutSorted(m, k, v);
    if p in TextPut(m, k, v) && p.0 == k { TextSortedUnique(TextPut(m, k, v), p, (k, v)); }
  }
}
