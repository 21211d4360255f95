// Hexadecimal text, digests and bit sets: the three forms a key takes.
module Codec {
  import opened Wrappers
  import opened Keys

  const KEY_SIZE: nat := 256
  const DIGEST_LENGTH: nat := 32

  type Byte = n: int | 0 <= n < 256
  type Digest = seq<Byte>

  // -------------------------------------------------------------- characters

  const HEX: string := "0123456789abcdef"

  // `isspace` in the C locale.
  predicate IsSpace(c: char) {
    c == ' ' || '\t' <= c <= '\r'
  }

  function DigitValue(c: char): Option<nat> {
    if '0' <= c <= '9' then Some((c - '0') as int)
    else if 'a' <= c <= 'f' then Some((c - 'a') as int + 10)
    else if 'A' <= c <= 'F' then Some((c - 'A') as int + 10)
    else None
  }

  function HexByte(n: Byte): (s: string)
    ensures |s| == 2
  {
    [HEX[n / 16], HEX[n % 16]]
  }

  // `strtoul(text, NULL, 16)` on two non-space characters, cut to eight bits. A NUL ends the text.
  function StrToByte(c: char, d: char): Byte {
    var low := DigitValue(d);
    if c == '+' then (if low.Some? then low.value else 0)
    else if c == '-' then (if low.Some? then (256 - low.value) % 256 else 0)
    else match DigitValue(c) {
      case None => 0
      case Some(high) => if low.Some? then high * 16 + low.value else high
    }
  }

  // Formatted extraction of one character: leading white space is skipped,
  // and nothing is stored when the stream is exhausted.
  function Extract(s: string): (r: (Option<char>, string))
    ensures r.0.Some? ==> |r.1| < |s|
  {
    if s == [] then (None, [])
    else if IsSpace(s[0]) then Extract(s[1..])
    else (Some(s[0]), s[1..])
  }

  function CharOrNul(c: Option<char>): char {
    if c.Some? then c.value else '\0'
  }

  function ExtractByte(s: string): (Byte, string) {
    var (c, s') := Extract(s);
    var (d, s'') := Extract(s');
    (StrToByte(CharOrNul(c), CharOrNul(d)), s'')
  }

  // ------------------------------------------------------- digest <-> text

  // What `operator>>` stores for an n-byte digest; defined for every text.
  function ParseDigest(s: string, n: nat): (d: Digest)
    ensures |d| == n
    decreases n, s
  {
    if n == 0 then [] else [ExtractByte(s).0] + ParseDigest(ExtractByte(s).1, n - 1)
  }

  // What `operator<<` prints.
  function PrintDigest(d: Digest): (s: string)
    ensures |s| == 2 * |d|
  {
    if d == [] then [] else HexByte(d[0]) + PrintDigest(d[1..])
  }

  // Lower-case hexadecimal text of a 32-byte digest, the form the node itself produces.
  predicate Canonical(s: string) {
    |s| == 2 * DIGEST_LENGTH && LowerHex(s)
  }

  predicate LowerHex(s: string) {
    forall i :: 0 <= i < |s| ==> IsLowerHex(s[i])
  }

  predicate IsLowerHex(c: char) {
    '0' <= c <= '9' || 'a' <= c <= 'f'
  }

  lemma HexByteParses(n: Byte, rest: string)
    ensures ExtractByte(HexByte(n) + rest) == (n, rest)
  {
    HexDigit(n / 16);
    HexDigit(n % 16);
    ExtractTwo(HEX[n / 16], HEX[n % 16], rest);
  }

  lemma HexDigit(n: nat)
    requires n < 16
    ensures !IsSpace(HEX[n]) && DigitValue(HEX[n]) == Some(n)
    ensures IsLowerHex(HEX[n])
  {
  }

  // Printing then reading is the identity, whatever follows in the stream.
  lemma {:induction false} PrintThenParse(d: Digest, rest: string)
    ensures ParseDigest(PrintDigest(d) + rest, |d|) == d
  {
    if d != [] {
      var tail := PrintDigest(d[1..]) + rest;
      assert PrintDigest(d) + rest == HexByte(d[0]) + tail;
      HexByteParses(d[0], tail);
      PrintThenParse(d[1..], rest);
      assert ParseDigest(PrintDigest(d) + rest, |d|) == [d[0]] + ParseDigest(tail, |d| - 1);
    }
  }

  // Byte i is printed as its high and then its low hexadecimal digit.
  lemma {:induction false} PrintedDigits(d: Digest, i: nat)
    requires i < |d|
    ensures DigitValue(PrintDigest(d)[2 * i]) == Some(d[i] / 16)
    ensures DigitValue(PrintDigest(d)[2 * i + 1]) == Some(d[i] % 16)
  {
    var tail := PrintDigest(d[1..]);
    if i == 0 {
      HexDigit(d[0] / 16);
      HexDigit(d[0] % 16);
    } else {
      PrintedDigits(d[1..], i - 1);
      assert PrintDigest(d)[2 * i] == tail[2 * (i - 1)] && PrintDigest(d)[2 * i + 1] == tail[2 * (i - 1) + 1];
    }
  }

  lemma CanonicalByte(c: char, d: char)
    requires IsLowerHex(c) && IsLowerHex(d)
    ensures !IsSpace(c) && !IsSpace(d) && HexByte(StrToByte(c, d)) == [c, d]
  {
    CanonicalDigit(c);
    CanonicalDigit(d);
    HexByteDigits(c, d, DigitValue(c).value, DigitValue(d).value);
  }

  lemma ExtractTwo(c: char, d: char, rest: string)
    requires !IsSpace(c) && !IsSpace(d)
    ensures ExtractByte([c, d] + rest) == (StrToByte(c, d), rest)
  {
    var s := [c, d] + rest;
    assert s[1..] == [d] + rest && s[1..][1..] == rest;
  }

  lemma HexByteDigits(c: char, d: char, h: nat, l: nat)
    requires h < 16 && l < 16 && HEX[h] == c && HEX[l] == d
    requires c != '+' && c != '-' && DigitValue(c) == Some(h) && DigitValue(d) == Some(l)
    ensures HexByte(StrToByte(c, d)) == [c, d]
  {
    var n := h * 16 + l;
    assert n / 16 == h && n % 16 == l;
    assert HexByte(n) == [HEX[h], HEX[l]];
  }

  lemma CanonicalDigit(c: char)
    requires IsLowerHex(c)
    ensures !IsSpace(c) && c != '+' && c != '-'
    ensures DigitValue(c).Some? && DigitValue(c).value < 16 && HEX[DigitValue(c).value] == c
  {
  }

  // On canonical text, reading then printing is the identity too.
  lemma {:induction false} ParseThenPrint(s: string, n: nat)
    requires |s| == 2 * n && LowerHex(s)
    ensures PrintDigest(ParseDigest(s, n)) == s
  {
    if n > 0 {
      assert s == [s[0], s[1]] + s[2..];
      CanonicalByte(s[0], s[1]);
      ExtractTwo(s[0], s[1], s[2..]);
      ParseThenPrint(s[2..], n - 1);
      assert ParseDigest(s, n)[1..] == ParseDigest(s[2..], n - 1);
    }
  }

  // --------------------------------------------------------- digest <-> bits

  predicate BitOf(n: nat, j: nat) {
    n / Pow2(j) % 2 == 1
  }

  // `digest_to_bitset<SIZE>`.
  function DigestBits(d: Digest, size: nat): (b: Bits)
    requires d != []
    ensures |b| == size
    ensures forall i :: 0 <= i < size ==> b[i] == BitOf(d[i / 8 % |d|], i % 8)
  {
    seq(size, i requires 0 <= i < size => BitOf(d[i / 8 % |d|], i % 8))
  }

  // `string_to_key<KEY_SIZE>`, total on every text.
  function StringToKey(s: string): (b: Bits)
    ensures |b| == KEY_SIZE
  {
    DigestBits(ParseDigest(s, DIGEST_LENGTH), KEY_SIZE)
  }

  // The bytes of a bit set, most significant byte first.
  function HighBytes(b: Bits): (d: Digest)
    requires |b| % 8 == 0
    ensures |d| == |b| / 8
  {
    if b == [] then []
    else
      assert Pow2(8) == 256;
      [Value(b[|b| - 8..])] + HighBytes(b[..|b| - 8])
  }

  // What `key_to_string` prints.
  function KeyText(b: Bits): string
    requires |b| % 8 == 0
  {
    PrintDigest(HighBytes(b))
  }

  // The same bytes in the opposite order; bits keep their place in the byte.
  function ByteReversal(b: Bits): (r: Bits)
    requires |b| % 8 == 0
    ensures |r| == |b|
    ensures forall i :: 0 <= i < |b| ==> r[i] == b[Mirror(|b|, i)]
  {
    seq(|b|, i requires 0 <= i < |b| => b[Mirror(|b|, i)])
  }

  // Bit i of n bits when the n / 8 bytes change places.
  function Mirror(n: nat, i: nat): (j: nat)
    requires n % 8 == 0 && i < n
    ensures j < n && j / 8 == n / 8 - 1 - i / 8 && j % 8 == i % 8
  {
    8 * (n / 8 - 1 - i / 8) + i % 8
  }

  lemma {:induction false} BitOfValue(b: Bits, j: nat)
    requires j < |b|
    ensures BitOf(Value(b), j) == b[j]
  {
    var n := |b| - 1;
    var v := Value(b[..n]);
    if j == n {
      TopBit(n, v);
    } else {
      BitOfValue(b[..n], j);
      LowerBit(n, v, j);
    }
  }

  lemma TopBit(n: nat, v: nat)
    requires v < Pow2(n)
    ensures !BitOf(v, n) && BitOf(Pow2(n) + v, n)
  {
    QuotientUnique(v, Pow2(n), 0, v);
    QuotientUnique(Pow2(n) + v, Pow2(n), 1, v);
  }

  lemma LowerBit(n: nat, v: nat, j: nat)
    requires j < n
    ensures BitOf(Pow2(n) + v, j) == BitOf(v, j)
  {
    Pow2Split(n, j);
    EvenMultiple(Pow2(n - 1 - j), Pow2(j), v);
  }

  lemma EvenMultiple(h: nat, p: nat, v: nat)
    requires p > 0
    ensures (2 * h * p + v) / p % 2 == v / p % 2
  {
    DivideSum(2 * h, p, v);
    EvenSum(h, v / p);
  }

  lemma EvenSum(h: nat, q: nat)
    ensures (2 * h + q) % 2 == q % 2
  {
  }

  lemma Pow2Split(n: nat, j: nat)
    requires j < n
    ensures Pow2(n) == 2 * Pow2(n - 1 - j) * Pow2(j)
  {
    if j > 0 { Pow2Split(n - 1, j - 1); }
  }

  lemma DivideSum(q: nat, m: nat, r: nat)
    requires m > 0
    ensures (q * m + r) / m == q + r / m
  {
    var k := r / m;
    assert q * m + r == (q + k) * m + r % m;
    QuotientUnique(q * m + r, m, q + k, r % m);
  }

  lemma QuotientUnique(n: nat, m: nat, q: nat, r: nat)
    requires m > 0 && n == q * m + r && r < m
    ensures n / m == q
  {
    MultipleBelow(n / m - q, m, r - n % m);
  }

  lemma MultipleBelow(d: int, m: int, x: int)
    requires d * m == x && 0 - m < x < m
    ensures d == 0
  {
    assert d >= 1 ==> d * m >= m;
    assert d <= -1 ==> d * m <= 0 - m;
  }

  // Bit j of byte q, counted from the top.
  lemma {:induction false} HighByteBit(b: Bits, q: nat, j: nat)
    requires |b| % 8 == 0 && 8 * (q + 1) <= |b| && j < 8
    ensures q < |HighBytes(b)| && BitOf(HighBytes(b)[q], j) == b[|b| - 8 * (q + 1) + j]
  {
    hide BitOf, Value;
    var (front, last) := (b[..|b| - 8], b[|b| - 8..]);
    assert HighBytes(b) == [Value(last)] + HighBytes(front);
    if q == 0 {
      BitOfValue(last, j);
    } else {
      HighByteBit(front, q - 1, j);
    }
  }

  lemma HighBytesAt(b: Bits, i: nat)
    requires |b| % 8 == 0 && i < |b|
    ensures i / 8 < |b| / 8 && BitOf(HighBytes(b)[i / 8], i % 8) == b[Mirror(|b|, i)]
  {
    hide BitOf, HighBytes;
    MirrorPlace(|b|, i);
    HighByteBit(b, i / 8, i % 8);
  }

  lemma MirrorPlace(n: nat, i: nat)
    requires n % 8 == 0 && i < n
    ensures i / 8 < n / 8 && 8 * (i / 8 + 1) <= n && Mirror(n, i) == n - 8 * (i / 8 + 1) + i % 8
  {
  }

  lemma HighBytesBits(b: Bits)
    requires |b| % 8 == 0 && b != []
    ensures DigestBits(HighBytes(b), |b|) == ByteReversal(b)
  {
    var x, y := DigestBits(HighBytes(b), |b|), ByteReversal(b);
    forall i | 0 <= i < |b| ensures x[i] == y[i] {
      HighBytesBitAt(b, i);
    }
    SameBits(x, y);
  }

  lemma HighBytesBitAt(b: Bits, i: nat)
    requires |b| % 8 == 0 && i < |b|
    ensures DigestBits(HighBytes(b), |b|)[i] == ByteReversal(b)[i]
  {
    HighBytesAt(b, i);
    DigestBitAt(HighBytes(b), |b|, i);
  }

  lemma SameBits(x: Bits, y: Bits)
    requires |x| == |y| && forall i :: 0 <= i < |x| ==> x[i] == y[i]
    ensures x == y
  {
  }

  lemma DigestBitAt(d: Digest, size: nat, i: nat)
    requires i < size && i / 8 < |d|
    ensures DigestBits(d, size)[i] == BitOf(d[i / 8], i % 8)
  {
    SmallModulo(i / 8, |d|);
  }

  lemma SmallModulo(a: nat, n: nat)
    requires a < n
    ensures a % n == a
  {
  }

  lemma ByteReversalTwice(b: Bits)
    requires |b| % 8 == 0
    ensures ByteReversal(ByteReversal(b)) == b
  {
    var r := ByteReversal(b);
    forall i | 0 <= i < |b| ensures ByteReversal(r)[i] == b[i] {
      assert Mirror(|b|, Mirror(|b|, i)) == i;
    }
  }

  // `string_to_key` does not undo `key_to_string`: it yields the bytes in reverse
  // order. Hence printing is injective, and going round twice is the identity.
  lemma KeyTextReadsReversed(b: Bits)
    requires |b| == KEY_SIZE
    ensures StringToKey(KeyText(b)) == ByteReversal(b)
    ensures StringToKey(KeyText(StringToKey(KeyText(b)))) == b
  {
    KeyTextReadsReversedOnce(b);
    KeyTextReadsReversedOnce(ByteReversal(b));
    ByteReversalTwice(b);
  }

  lemma KeyTextReadsReversedOnce(b: Bits)
    requires |b| == KEY_SIZE
    ensures StringToKey(KeyText(b)) == ByteReversal(b)
  {
    PrintThenParse(HighBytes(b), []);
    assert PrintDigest(HighBytes(b)) + [] == KeyText(b);
    HighBytesBits(b);
  }

  lemma KeyTextInjective(a: Bits, b: Bits)
    requires |a| == |b| == KEY_SIZE && KeyText(a) == KeyText(b)
    ensures a == b
  {
    KeyTextReadsReversed(a);
    KeyTextReadsReversed(b);
  }

  // A byte is determined by its eight bits.
  lemma {:induction false} BitsDetermine(m: nat, n: nat, k: nat)
    requires m < Pow2(k) && n < Pow2(k)
    requires forall j :: 0 <= j < k ==> BitOf(m, j) == BitOf(n, j)
    ensures m == n
  {
    if k > 0 {
      forall j | 0 <= j < k - 1 ensures BitOf(m / 2, j) == BitOf(n / 2, j) {
        assert BitOf(m, j + 1) == BitOf(n, j + 1);
        HalveThenDivide(m, j);
        HalveThenDivide(n, j);
      }
      BitsDetermine(m / 2, n / 2, k - 1);
      assert BitOf(m, 0) == BitOf(n, 0);
    }
  }

  lemma HalveThenDivide(m: nat, j: nat)
    ensures m / Pow2(j + 1) == m / 2 / Pow2(j)
  {
    var p := Pow2(j);
    var q := m / 2 / p;
    assert m == q * (2 * p) + (2 * (m / 2 % p) + m % 2) by {
      assert m / 2 == q * p + m / 2 % p;
    }
    QuotientUnique(m, 2 * p, q, 2 * (m / 2 % p) + m % 2);
  }

  lemma DigestBitsDetermine(d: Digest, e: Digest)
    requires d != [] && |d| == |e| && DigestBits(d, 8 * |d|) == DigestBits(e, 8 * |d|)
    ensures d == e
  {
    forall i | 0 <= i < |d| ensures d[i] == e[i] {
      forall j | 0 <= j < 8 ensures BitOf(d[i], j) == BitOf(e[i], j) {
        var k := 8 * i + j;
        assert k / 8 == i && k % 8 == j;
        DigestBitAt(d, 8 * |d|, k);
        DigestBitAt(e, 8 * |d|, k);
      }
      assert Pow2(8) == 256;
      BitsDetermine(d[i], e[i], 8);
    }
  }

  // Canonical texts that parse to the same bit set are the same text.
  lemma StringToKeyInjective(s: string, t: string)
    requires Canonical(s) && Canonical(t) && StringToKey(s) == StringToKey(t)
    ensures s == t
  {
    DigestBitsDetermine(ParseDigest(s, DIGEST_LENGTH), ParseDigest(t, DIGEST_LENGTH));
    ParseThenPrint(s, DIGEST_LENGTH);
    ParseThenPrint(t, DIGEST_LENGTH);
  }

  // What a text prints as once it was read: its canonical form.
  function Normal(s: string): string {
    PrintDigest(ParseDigest(s, DIGEST_LENGTH))
  }

  // Any two texts denote one key if and only if they have one canonical form.
  lemma SameKeyExactly(s: string, t: string)
    ensures StringToKey(s) == StringToKey(t) <==> Normal(s) == Normal(t)
    ensures Canonical(s) <==> Normal(s) == s
  {
    var d, e := ParseDigest(s, DIGEST_LENGTH), ParseDigest(t, DIGEST_LENGTH);
    if StringToKey(s) == StringToKey(t) { DigestBitsDetermine(d, e); }
    PrintThenParse(d, []);
    PrintThenParse(e, []);
    assert PrintDigest(d) + [] == PrintDigest(d) && PrintDigest(e) + [] == PrintDigest(e);
    if Canonical(s) { ParseThenPrint(s, DIGEST_LENGTH); }
    PrintIsLowerHex(d);
  }

  // Without the hypothesis it fails: an upper-case digit parses like its lower-case form.
  lemma NonCanonicalCollision()
    ensures exists s, t :: s != t && Canonical(t) && StringToKey(s) == StringToKey(t)
  {
    var rest := PrintDigest(seq(31, _ => 0));
    PrintIsLowerHex(seq(31, _ => 0));
    var s, t := ['A', 'A'] + rest, ['a', 'a'] + rest;
    assert s[0] == 'A' && t[0] == 'a';
    ExtractTwo('A', 'A', rest);
    ExtractTwo('a', 'a', rest);
    SameFirstByte(s, t, DIGEST_LENGTH);
    assert Canonical(t) && StringToKey(s) == StringToKey(t);
  }

  lemma SameFirstByte(s: string, t: string, n: nat)
    requires ExtractByte(s) == ExtractByte(t)
    ensures ParseDigest(s, n) == ParseDigest(t, n)
  {
  }

  lemma {:induction false} PrintIsLowerHex(d: Digest)
    ensures LowerHex(PrintDigest(d))
  {
    if d != [] {
      PrintIsLowerHex(d[1..]);
      HexDigit(d[0] / 16);
      HexDigit(d[0] % 16);
    }
  }

  // Every key the node prints itself is canonical.
  lemma KeyTextIsCanonical(b: Bits)
    requires |b| == KEY_SIZE
    ensures Canonical(KeyText(b))
  {
    PrintIsLowerHex(HighBytes(b));
  }

  // ---------------------------------------------------------------- methods

  // A size that is not a whole number of bytes is refused with an exception.
  method KeyToString(b: Bits) returns (r: Option<string>)
    ensures r == if |b| % 8 != 0 then None else Some(KeyText(b))
  {
    hide KeyText, HexByte, HexDigits, Value;
    var i := |b|;
    if |b| % 8 != 0 { return None; }
    var text := "";
    i := i - 8;
    assert b[..i + 8] == b;
    while i >= 0
      invariant -8 <= i <= |b| - 8 && i % 8 == 0
      invariant text + KeyText(b[..i + 8]) == KeyText(b)
    {
      var byte := ByteAt(b, i);
      KeyTextGrows(text, b, i, byte);
      PaddedDigits(Value(byte));
      var pad, hex := if Value(byte) < 16 then "0" else "", HexDigits(Value(byte));
      text := text + (pad + hex);
      i := i - 8;
    }
    assert i == -8 && b[..i + 8] == [];
    NoKeyText(text);
    r := Some(text);
  }

  lemma PaddedDigits(n: Byte)
    ensures (if n < 16 then "0" else "") + HexDigits(n) == HexByte(n)
  {
  }

  lemma NoKeyText(text: string)
    ensures text + KeyText([]) == text
  {
  }

  lemma KeyTextGrows(text: string, b: Bits, i: nat, byte: Bits)
    requires i + 8 <= |b| && |b| % 8 == 0 && i % 8 == 0 && byte == b[i..i + 8]
    requires text + KeyText(b[..i + 8]) == KeyText(b)
    ensures Value(byte) < 256 && (text + HexByte(Value(byte))) + KeyText(b[..i]) == KeyText(b)
  {
    KeyTextStep(b, i, byte);
    Associate(text, HexByte(Value(byte)), KeyText(b[..i]));
  }

  // The inner loop, which copies eight bits.
  method ByteAt(b: Bits, i: nat) returns (byte: Bits)
    requires i + 8 <= |b|
    ensures byte == b[i..i + 8]
  {
    byte := [];
    for j := 0 to 8
      invariant byte == b[i..i + j]
    {
      byte := byte + [b[i + j]];
    }
  }

  // `std::hex` prints no leading zero.
  function HexDigits(n: Byte): (s: string)
    ensures (if n < 16 then "0" else "") + s == HexByte(n)
  {
    if n < 16 then [HEX[n]] else HexByte(n)
  }

  lemma KeyTextStep(b: Bits, i: nat, byte: Bits)
    requires i + 8 <= |b| && i % 8 == 0 && byte == b[i..i + 8]
    ensures Value(byte) < 256 && KeyText(b[..i + 8]) == HexByte(Value(byte)) + KeyText(b[..i])
  {
    assert Pow2(8) == 256;
    var prefix := b[..i + 8];
    assert byte == prefix[|prefix| - 8..] && prefix[..i] == b[..i];
    assert HighBytes(prefix)[1..] == HighBytes(prefix[..i]);
  }

  method DigestToBitset(digest: Digest, size: nat) returns (b: Bits)
    requires digest != []
    ensures b == DigestBits(digest, size)
  {
    b := [];
    for i := 0 to size
      invariant b == DigestBits(digest, i)
    {
      b := b + [BitOf(digest[i / 8 % |digest|], i % 8)];
    }
  }

  method WriteDigest(digest: Digest) returns (text: string)
    ensures text == PrintDigest(digest)
  {
    text := "";
    for i := 0 to |digest|
      invariant text + PrintDigest(digest[i..]) == PrintDigest(digest)
    {
      text := text + HexByte(digest[i]);
      assert digest[i..][1..] == digest[i + 1..];
    }
    assert digest[|digest|..] == [];
  }

  method ReadDigest(text: string, n: nat) returns (digest: Digest)
    ensures digest == ParseDigest(text, n)
  {
    digest := [];
    var rest := text;
    for i := 0 to n
      invariant |digest| == i
      invariant digest + ParseDigest(rest, n - i) == ParseDigest(text, n)
    {
      var (c, afterFirst) := Extract(rest);
      var (d, afterSecond) := Extract(afterFirst);
      digest := digest + [StrToByte(CharOrNul(c), CharOrNul(d))];
      assert ParseDigest(rest, n - i) == [ExtractByte(rest).0] + ParseDigest(afterSecond, n - i - 1);
      rest := afterSecond;
    }
  }
}
