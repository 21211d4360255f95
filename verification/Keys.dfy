// Keys as bit sets, the XOR metric on them, and the three orders the program
// uses interchangeably: the order of bitsets, of their printed form, of numbers.
module Keys {

  /** A `std::bitset<SIZE>`: bit i is element i, the last element is the most significant. */
  type Bits = seq<bool>

  function Pow2(n: nat): (p: nat)
    ensures p > 0
  {
    if n == 0 then 1 else 2 * Pow2(n - 1)
  }

  // The number a bitset denotes.
  function Value(b: Bits): (v: nat)
    ensures v < Pow2(|b|)
  {
    if |b| == 0 then 0
    else (if b[|b| - 1] then Pow2(|b| - 1) else 0) + Value(b[..|b| - 1])
  }

  function Xor(a: Bits, b: Bits): (r: Bits)
    requires |a| == |b|
    ensures |r| == |a|
    ensures forall i :: 0 <= i < |r| ==> r[i] == (a[i] != b[i])
  {
    seq(|a|, i requires 0 <= i < |a| => a[i] != b[i])
  }

  function Not(a: Bits): (r: Bits)
    ensures |r| == |a|
    ensures forall i :: 0 <= i < |r| ==> r[i] == !a[i]
  {
    seq(|a|, i requires 0 <= i < |a| => !a[i])
  }

  // `bitset::to_string`: the most significant bit comes first.
  function BitText(b: Bits): (s: string)
    ensures |s| == |b|
    ensures forall i :: 0 <= i < |s| ==> s[i] == (if b[|b| - 1 - i] then '1' else '0')
  {
    seq(|b|, i requires 0 <= i < |b| => if b[|b| - 1 - i] then '1' else '0')
  }

  // `std::string::operator<`, the order in which `std::map` iterates.
  predicate TextLess(s: string, t: string) {
    if t == [] then false
    else if s == [] then true
    else if s[0] != t[0] then s[0] < t[0]
    else TextLess(s[1..], t[1..])
  }

  // Length of the common prefix, counted from the most significant bit.
  function CommonBits(a: Bits, b: Bits): (n: nat)
    requires |a| == |b|
    ensures n <= |a|
  {
    if |a| == 0 || a[|a| - 1] != b[|b| - 1] then 0
    else 1 + CommonBits(a[..|a| - 1], b[..|b| - 1])
  }

  // ---------------------------------------------------------------- methods

  method CountCommonBits(k1: Bits, k2: Bits) returns (n: nat)
    requires |k1| == |k2|
    ensures n == CommonBits(k1, k2)
  {
    var lastBit := |k1| - 1;
    for i := 0 to |k1|
      invariant forall j :: |k1| - i <= j < |k1| ==> k1[j] == k2[j]
    {
      if k1[lastBit - i] != k2[lastBit - i] {
        CommonBitsUnique(k1, k2, i);
        return i;
      }
    }
    CommonBitsUnique(k1, k2, |k1|);
    return |k1|;
  }

  // The bit-by-bit comparison decides the numeric order.
  method Less(a: Bits, b: Bits) returns (less: bool)
    requires |a| == |b|
    ensures less <==> Value(a) < Value(b)
  {
    if a == b { return false; }
    for pos := 1 to |a| + 1
      invariant forall j :: |a| - pos < j < |a| ==> a[j] == b[j]
    {
      if a[|a| - pos] {
        if !b[|a| - pos] { HighBitDecides(b, a, |a| - pos); return false; }
      } else {
        if b[|a| - pos] { HighBitDecides(a, b, |a| - pos); return true; }
      }
    }
    return false;
  }

  // ----------------------------------------------------------------- prefix

  // The common prefix ends at the first difference, or never.
  lemma {:induction false} CommonBitsMeaning(a: Bits, b: Bits)
    requires |a| == |b|
    ensures forall j :: |a| - CommonBits(a, b) <= j < |a| ==> a[j] == b[j]
    ensures CommonBits(a, b) < |a| ==> a[|a| - 1 - CommonBits(a, b)] != b[|a| - 1 - CommonBits(a, b)]
    ensures CommonBits(a, b) == |a| <==> a == b
  {
    if |a| > 0 && a[|a| - 1] == b[|b| - 1] {
      var a', b' := a[..|a| - 1], b[..|b| - 1];
      CommonBitsMeaning(a', b');
      assert a == a' + [a[|a| - 1]] && b == b' + [b[|b| - 1]];
      assert forall j :: 0 <= j < |a'| ==> a[j] == a'[j] && b[j] == b'[j];
    }
  }

  lemma CommonBitsUnique(a: Bits, b: Bits, n: nat)
    requires |a| == |b| && n <= |a|
    requires forall j :: |a| - n <= j < |a| ==> a[j] == b[j]
    requires n < |a| ==> a[|a| - 1 - n] != b[|a| - 1 - n]
    ensures CommonBits(a, b) == n
  {
    CommonBitsMeaning(a, b);
  }

  lemma {:induction false} CommonBitsSymmetric(a: Bits, b: Bits)
    requires |a| == |b|
    ensures CommonBits(a, b) == CommonBits(b, a)
  {
    CommonBitsMeaning(a, b);
    CommonBitsUnique(b, a, CommonBits(a, b));
  }

  // Prefix length is an ultrametric: two of three prefixes are equal and the third is no shorter.
  lemma {:induction false} CommonBitsUltrametric(a: Bits, b: Bits, c: Bits)
    requires |a| == |b| == |c|
    ensures CommonBits(a, c) >= CommonBits(a, b) || CommonBits(a, c) >= CommonBits(b, c)
    ensures CommonBits(a, b) < CommonBits(b, c) ==> CommonBits(a, c) == CommonBits(a, b)
    ensures CommonBits(b, c) < CommonBits(a, b) ==> CommonBits(a, c) == CommonBits(b, c)
  {
    CommonBitsMeaning(a, b);
    CommonBitsMeaning(b, c);
    var x, y := CommonBits(a, b), CommonBits(b, c);
    if x != y {
      CommonBitsUnique(a, c, if x < y then x else y);
    } else {
      CommonBitsMeaning(a, c);
    }
  }

  // ------------------------------------------------------------------ order

  lemma {:induction false} HighBitDecides(a: Bits, b: Bits, i: nat)
    requires |a| == |b| && i < |a|
    requires !a[i] && b[i]
    requires forall j :: i < j < |a| ==> a[j] == b[j]
    ensures Value(a) < Value(b)
  {
    if i < |a| - 1 {
      HighBitDecides(a[..|a| - 1], b[..|a| - 1], i);
    }
  }

  lemma {:induction false} ValueInjective(a: Bits, b: Bits)
    requires |a| == |b| && Value(a) == Value(b)
    ensures a == b
  {
    CommonBitsMeaning(a, b);
    var n := CommonBits(a, b);
    if n < |a| {
      if a[|a| - 1 - n] { HighBitDecides(b, a, |a| - 1 - n); } else { HighBitDecides(a, b, |a| - 1 - n); }
    }
  }

  // The order of the printed forms is the numeric order.
  lemma {:induction false} TextOrderIsNumeric(a: Bits, b: Bits)
    requires |a| == |b|
    ensures TextLess(BitText(a), BitText(b)) <==> Value(a) < Value(b)
  {
    if |a| > 0 {
      var a', b' := a[..|a| - 1], b[..|b| - 1];
      TextOrderIsNumeric(a', b');
      assert BitText(a)[1..] == BitText(a') && BitText(b)[1..] == BitText(b');
    }
  }

  lemma TextInjective(a: Bits, b: Bits)
    requires |a| == |b| && BitText(a) == BitText(b)
    ensures a == b
  {
    forall i | 0 <= i < |a| ensures a[i] == b[i] {
      assert BitText(a)[|a| - 1 - i] == BitText(b)[|a| - 1 - i];
    }
  }

  // ------------------------------------------------------------- XOR metric

  function Distance(a: Bits, b: Bits): nat
    requires |a| == |b|
  {
    Value(Xor(a, b))
  }

  lemma {:induction false} ZeroValue(n: nat, b: Bits)
    requires |b| == n && forall i :: 0 <= i < n ==> !b[i]
    ensures Value(b) == 0
  {
    if n > 0 { ZeroValue(n - 1, b[..n - 1]); }
  }

  lemma {:induction false} XorSubadditive(a: Bits, b: Bits)
    requires |a| == |b|
    ensures Value(Xor(a, b)) <= Value(a) + Value(b)
  {
    if |a| > 0 {
      XorSubadditive(a[..|a| - 1], b[..|a| - 1]);
      assert Xor(a, b)[..|a| - 1] == Xor(a[..|a| - 1], b[..|a| - 1]);
    }
  }

  // Section 2.1 of the Kademlia paper: a symmetric metric in which a point and a
  // distance determine the other point.
  lemma XorMetric(a: Bits, b: Bits, c: Bits)
    requires |a| == |b| == |c|
    ensures Distance(a, b) == Distance(b, a)
    ensures Distance(a, b) == 0 <==> a == b
    ensures Distance(a, c) <= Distance(a, b) + Distance(b, c)
    ensures Distance(a, b) == Distance(a, c) <==> b == c
  {
    assert Xor(a, b) == Xor(b, a);
    assert Xor(a, c) == Xor(Xor(a, b), Xor(b, c));
    XorSubadditive(Xor(a, b), Xor(b, c));
    ZeroValue(|a|, Xor(a, a));
    if Distance(a, b) == 0 {
      ValueInjective(Xor(a, b), Xor(a, a));
      assert b == Xor(a, Xor(a, b)) && a == Xor(a, Xor(a, a));
    }
    if Distance(a, b) == Distance(a, c) {
      ValueInjective(Xor(a, b), Xor(a, c));
      assert b == Xor(a, Xor(a, b)) && c == Xor(a, Xor(a, c));
    }
  }

  // A longer common prefix with the target means a strictly smaller distance to it.
  lemma LongerPrefixIsCloser(target: Bits, near: Bits, far: Bits)
    requires |target| == |near| == |far|
    requires CommonBits(near, target) > CommonBits(far, target)
    ensures Distance(near, target) < Distance(far, target)
  {
    CommonBitsMeaning(near, target);
    CommonBitsMeaning(far, target);
    HighBitDecides(Xor(near, target), Xor(far, target), |target| - 1 - CommonBits(far, target));
  }

  // Complementing the distance reverses its order, which is how the proximity cache is keyed.
  lemma ComplementReverses(a: Bits, b: Bits)
    requires |a| == |b|
    ensures Value(Not(a)) < Value(Not(b)) <==> Value(b) < Value(a)
  {
    CommonBitsMeaning(a, b);
    var n := CommonBits(a, b);
    if n < |a| {
      var i := |a| - 1 - n;
      if a[i] {
        HighBitDecides(b, a, i);
        HighBitDecides(Not(a), Not(b), i);
      } else {
        HighBitDecides(a, b, i);
        HighBitDecides(Not(b), Not(a), i);
      }
    }
  }
}
