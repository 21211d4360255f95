// The wire format: a 16-character header of two decimal fields, then the body.
module Framing {
  import opened Wrappers
  import opened Codec

  const PACKET_SIZE: nat := 1024 * 1024
  const HEADER_LENGTH: nat := 16
  const FIELD: nat := 8
  const MAX_BODY_LENGTH: nat := PACKET_SIZE - HEADER_LENGTH

  // ------------------------------------------------------------- decimals

  function Digit(n: nat): (c: char)
    requires n < 10
    ensures '0' <= c <= '9' && (c - '0') as nat == n
  {
    '0' + n as char
  }

  function Decimal(n: nat): (s: string)
    ensures s != []
  {
    if n < 10 then [Digit(n)] else Decimal(n / 10) + [Digit(n % 10)]
  }

  function Spaces(n: nat): (s: string)
    ensures |s| == n && forall i :: 0 <= i < n ==> s[i] == ' '
  {
    seq(n, _ => ' ')
  }

  // `sprintf("%8d", n)`: padded on the left to eight characters, longer when needed.
  function Padded(n: nat): string {
    Spaces(if |Decimal(n)| < FIELD then FIELD - |Decimal(n)| else 0) + Decimal(n)
  }

  predicate IsDigit(c: char) {
    '0' <= c <= '9'
  }

  // The value of the leading digits of s, after acc.
  function Digits(s: string, acc: nat): nat {
    if s == [] || !IsDigit(s[0]) then acc else Digits(s[1..], 10 * acc + (s[0] - '0') as nat)
  }

  // `atoi`: white space, an optional sign, digits; whatever follows is ignored.
  function Atoi(s: string): int {
    if s == [] then 0
    else if IsSpace(s[0]) then Atoi(s[1..])
    else if s[0] == '-' then 0 - Digits(s[1..], 0)
    else if s[0] == '+' then Digits(s[1..], 0)
    else Digits(s, 0)
  }

  function Pow10(n: nat): (p: nat)
    ensures p > 0
  {
    if n == 0 then 1 else 10 * Pow10(n - 1)
  }

  lemma {:induction false} DigitsConcat(s: string, t: string, acc: nat)
    requires forall i :: 0 <= i < |s| ==> IsDigit(s[i])
    ensures Digits(s + t, acc) == Digits(t, Digits(s, acc))
  {
    if s == [] {
      assert s + t == t;
    } else {
      assert (s + t)[1..] == s[1..] + t;
      DigitsConcat(s[1..], t, 10 * acc + (s[0] - '0') as nat);
    }
  }

  lemma {:induction false} DecimalParses(n: nat)
    ensures Digits(Decimal(n), 0) == n
    ensures forall i :: 0 <= i < |Decimal(n)| ==> IsDigit(Decimal(n)[i])
  {
    if n >= 10 {
      DecimalParses(n / 10);
      DigitsConcat(Decimal(n / 10), [Digit(n % 10)], 0);
      var d := Digit(n % 10);
      assert [d][1..] == [];
      assert Digits([d], n / 10) == 10 * (n / 10) + n % 10;
    } else {
      assert [Digit(n)][1..] == [];
    }
  }

  lemma {:induction false} DecimalLength(n: nat, k: nat)
    requires n < Pow10(k) && k > 0
    ensures |Decimal(n)| <= k
  {
    if n >= 10 { DecimalLength(n / 10, k - 1); }
  }

  lemma {:induction false} AtoiSkipsSpaces(k: nat, s: string)
    ensures Atoi(Spaces(k) + s) == Atoi(s)
  {
    var t := Spaces(k) + s;
    if k == 0 {
      assert t == s;
    } else {
      assert t[0] == ' ' && t[1..] == Spaces(k - 1) + s;
      AtoiSkipsSpaces(k - 1, s);
    }
  }

  // Reading back a padded field gives the number; up to eight digits fit, aligned to the right.
  lemma PaddedRoundTrip(n: nat)
    requires n < Pow10(FIELD)
    ensures |Padded(n)| == FIELD && Atoi(Padded(n)) == n
    ensures |Decimal(n)| <= FIELD && Padded(n)[FIELD - |Decimal(n)|..] == Decimal(n)
  {
    DecimalLength(n, FIELD);
    DecimalParses(n);
    AtoiSkipsSpaces(FIELD - |Decimal(n)|, Decimal(n));
    assert IsDigit(Decimal(n)[0]);
  }

  // --------------------------------------------------------------- header

  // What the two fields of a header decode to: the announced body length, the port as an
  // `unsigned short`, and whether the length is acceptable.
  datatype Header = Header(accepted: bool, bodyLength: nat, listenPort: nat)

  function DecodedHeader(h: string): Header
    requires |h| >= HEADER_LENGTH
  {
    var length := Atoi(h[..FIELD]);
    var port := Atoi(h[FIELD..HEADER_LENGTH]) % 0x1_0000;
    if 0 <= length <= MAX_BODY_LENGTH then Header(true, length, port) else Header(false, 0, port)
  }

  function EncodedHeader(bodyLength: nat, listenPort: nat): string {
    Padded(bodyLength) + Padded(listenPort)
  }

  lemma LimitsFit()
    ensures MAX_BODY_LENGTH < Pow10(FIELD) && 0x1_0000 <= Pow10(FIELD)
  {
    assert Pow10(4) == 10000;
    Pow10Sum(4, 4);
  }

  lemma Pow10Sum(a: nat, b: nat)
    ensures Pow10(a + b) == Pow10(a) * Pow10(b)
  {
    if a > 0 { Pow10Sum(a - 1, b); }
  }

  // Any two numbers that fit their fields: the length is accepted exactly up to the maximum and
  // becomes zero beyond it, and the port is cut to sixteen bits.
  lemma HeaderDecodesExactly(length: nat, port: nat)
    requires length < Pow10(FIELD) && port < Pow10(FIELD)
    ensures |EncodedHeader(length, port)| == HEADER_LENGTH
    ensures DecodedHeader(EncodedHeader(length, port))
            == if length <= MAX_BODY_LENGTH then Header(true, length, port % 0x1_0000)
               else Header(false, 0, port % 0x1_0000)
  {
    PaddedRoundTrip(length);
    PaddedRoundTrip(port);
    var h := EncodedHeader(length, port);
    assert h[..FIELD] == Padded(length) && h[FIELD..HEADER_LENGTH] == Padded(port);
  }

  // A negative length is refused, whatever follows its field.
  lemma NegativeLengthRefused(pad: nat, length: nat, rest: string)
    requires length > 0 && pad + 1 + |Decimal(length)| == FIELD && |rest| >= FIELD
    ensures var h := Spaces(pad) + (['-'] + Decimal(length)) + rest;
            !DecodedHeader(h).accepted && DecodedHeader(h).bodyLength == 0
  {
    var field := Spaces(pad) + (['-'] + Decimal(length));
    AtoiSkipsSpaces(pad, ['-'] + Decimal(length));
    assert (['-'] + Decimal(length))[1..] == Decimal(length);
    DecimalParses(length);
    assert (field + rest)[..FIELD] == field;
  }

  lemma HeaderRoundTrip(bodyLength: nat, listenPort: nat)
    requires bodyLength <= MAX_BODY_LENGTH && listenPort < 0x1_0000
    ensures |EncodedHeader(bodyLength, listenPort)| == HEADER_LENGTH
    ensures DecodedHeader(EncodedHeader(bodyLength, listenPort)) == Header(true, bodyLength, listenPort)
  {
    LimitsFit();
    HeaderDecodesExactly(bodyLength, listenPort);
  }

  // ------------------------------------------------------------ the buffer

  class Message {
    var data: array<char>
    var bodyLength: nat
    var listenPort: nat

    ghost predicate Valid()
      reads this
    {
      data.Length >= HEADER_LENGTH + bodyLength && bodyLength <= MAX_BODY_LENGTH && listenPort < 0x1_0000
    }

    // A longer body is cut to the maximum.
    constructor (size: nat, port: nat)
      requires port < 0x1_0000
      ensures Valid() && fresh(data) && listenPort == port && data.Length == HEADER_LENGTH + bodyLength
      ensures bodyLength == if size <= MAX_BODY_LENGTH then size else MAX_BODY_LENGTH
    {
      var length := if size <= MAX_BODY_LENGTH then size else MAX_BODY_LENGTH;
      bodyLength := length;
      listenPort := port;
      data := new char[HEADER_LENGTH + length](_ => '\0');
    }

    method EncodeHeader()
      requires Valid()
      modifies data
      ensures Valid() && data[..HEADER_LENGTH] == EncodedHeader(bodyLength, listenPort)
      ensures data[HEADER_LENGTH..] == old(data[HEADER_LENGTH..])
    {
      LimitsFit();
      PaddedRoundTrip(bodyLength);
      PaddedRoundTrip(listenPort);
      var part1, part2 := Padded(bodyLength), Padded(listenPort);
      forall i | 0 <= i < FIELD { data[i] := part1[i]; }
      forall i | 0 <= i < FIELD { data[FIELD + i] := part2[i]; }
      assert data[..HEADER_LENGTH] == part1 + part2;
    }

    method DecodeHeader() returns (accepted: bool)
      requires data.Length >= HEADER_LENGTH
      modifies this`bodyLength, this`listenPort
      ensures DecodedHeader(data[..HEADER_LENGTH]) == Header(accepted, bodyLength, listenPort)
    {
      ghost var h := data[..HEADER_LENGTH];
      assert h[..FIELD] == data[..FIELD] && h[FIELD..HEADER_LENGTH] == data[FIELD..HEADER_LENGTH];
      var length := Atoi(data[..FIELD]);
      listenPort := Atoi(data[FIELD..HEADER_LENGTH]) % 0x1_0000;
      accepted := 0 <= length <= MAX_BODY_LENGTH;
      bodyLength := if accepted then length else 0;
    }
  }

  // ------------------------------------------------------------ the stream

  /** A message as the program sees it: the peer's port and the body. */
  datatype Frame = Frame(listenPort: nat, body: string)

  predicate Sendable(f: Frame) {
    |f.body| <= MAX_BODY_LENGTH && f.listenPort < 0x1_0000
  }

  function Encoded(f: Frame): string {
    EncodedHeader(|f.body|, f.listenPort) + f.body
  }

  function EncodedAll(fs: seq<Frame>): string {
    if fs == [] then [] else Encoded(fs[0]) + EncodedAll(fs[1..])
  }

  // The alternating reader: a header, then as many characters as it announces. It waits at an
  // incomplete frame and stops at a refused header.
  function ReadAll(stream: string): seq<Frame>
    decreases |stream|
  {
    if |stream| < HEADER_LENGTH then []
    else
      var h := DecodedHeader(stream[..HEADER_LENGTH]);
      if !h.accepted || |stream| < HEADER_LENGTH + h.bodyLength then []
      else [Frame(h.listenPort, stream[HEADER_LENGTH..HEADER_LENGTH + h.bodyLength])]
            + ReadAll(stream[HEADER_LENGTH + h.bodyLength..])
  }

  lemma ReadOne(f: Frame, rest: string)
    requires Sendable(f)
    ensures ReadAll(Encoded(f) + rest) == [f] + ReadAll(rest)
  {
    HeaderRoundTrip(|f.body|, f.listenPort);
    var head := EncodedHeader(|f.body|, f.listenPort);
    var s := Encoded(f) + rest;
    assert s[..HEADER_LENGTH] == head;
    assert s[HEADER_LENGTH..HEADER_LENGTH + |f.body|] == f.body;
    assert s[HEADER_LENGTH + |f.body|..] == rest;
  }

  // Whatever was sent is read back: the same bodies and ports in the same order, and then
  // whatever the rest of the stream holds.
  lemma {:induction false} StreamRoundTrip(fs: seq<Frame>, rest: string)
    requires forall i :: 0 <= i < |fs| ==> Sendable(fs[i])
    ensures ReadAll(EncodedAll(fs) + rest) == fs + ReadAll(rest)
  {
    if fs == [] {
      assert EncodedAll(fs) + rest == rest;
    } else {
      EncodedStep(fs, rest);
      ReadOne(fs[0], EncodedAll(fs[1..]) + rest);
      StreamRoundTrip(fs[1..], rest);
      ConsAppend(fs, ReadAll(rest));
    }
  }

  lemma EncodedStep(fs: seq<Frame>, rest: string)
    requires fs != []
    ensures EncodedAll(fs) + rest == Encoded(fs[0]) + (EncodedAll(fs[1..]) + rest)
  {
    Associate(Encoded(fs[0]), EncodedAll(fs[1..]), rest);
  }

  lemma ConsAppend(fs: seq<Frame>, more: seq<Frame>)
    requires fs != []
    ensures [fs[0]] + (fs[1..] + more) == fs + more
  {
  }

  // A header that announces too long a body ends the stream, whatever comes behind it.
  lemma RefusedHeaderEndsStream(fs: seq<Frame>, length: nat, port: nat, rest: string)
    requires forall i :: 0 <= i < |fs| ==> Sendable(fs[i])
    requires MAX_BODY_LENGTH < length < Pow10(FIELD) && port < Pow10(FIELD)
    ensures ReadAll(EncodedAll(fs) + (EncodedHeader(length, port) + rest)) == fs
  {
    HeaderDecodesExactly(length, port);
    var tail := EncodedHeader(length, port) + rest;
    assert tail[..HEADER_LENGTH] == EncodedHeader(length, port);
    StreamRoundTrip(fs, tail);
    assert fs + [] == fs;
  }

  // Cut anywhere, the stream yields a prefix of the messages: exactly those wholly contained.
  lemma {:induction false} PartialStream(fs: seq<Frame>, n: nat)
    requires forall i :: 0 <= i < |fs| ==> Sendable(fs[i])
    requires n <= |EncodedAll(fs)|
    ensures var r := ReadAll(EncodedAll(fs)[..n]);
            r <= fs && |EncodedAll(r)| <= n && (|r| < |fs| ==> n < |EncodedAll(r)| + |Encoded(fs[|r|])|)
  {
    if fs != [] {
      var one := Encoded(fs[0]);
      if n < |one| {
        CutFrame(fs[0], n);
        assert EncodedAll(fs)[..n] == one[..n];
      } else {
        PartialStream(fs[1..], n - |one|);
        PartialStep(fs, n);
        PartialCons(fs, ReadAll(EncodedAll(fs[1..])[..n - |one|]), n);
      }
    }
  }

  lemma PartialStep(fs: seq<Frame>, n: nat)
    requires fs != [] && Sendable(fs[0]) && |Encoded(fs[0])| <= n <= |EncodedAll(fs)|
    ensures ReadAll(EncodedAll(fs)[..n]) == [fs[0]] + ReadAll(EncodedAll(fs[1..])[..n - |Encoded(fs[0])|])
  {
    var one, tail := Encoded(fs[0]), EncodedAll(fs[1..]);
    assert EncodedAll(fs)[..n] == one + tail[..n - |one|];
    ReadOne(fs[0], tail[..n - |one|]);
  }

  lemma PartialCons(fs: seq<Frame>, r: seq<Frame>, n: nat)
    requires fs != [] && n >= |Encoded(fs[0])|
    requires var k := n - |Encoded(fs[0])|;
             r <= fs[1..] && |EncodedAll(r)| <= k
             && (|r| < |fs[1..]| ==> k < |EncodedAll(r)| + |Encoded(fs[1..][|r|])|)
    ensures var s := [fs[0]] + r;
            s <= fs && |EncodedAll(s)| <= n && (|s| < |fs| ==> n < |EncodedAll(s)| + |Encoded(fs[|s|])|)
  {
    assert ([fs[0]] + r)[1..] == r;
  }

  lemma CutFrame(f: Frame, n: nat)
    requires Sendable(f) && n < |Encoded(f)|
    ensures ReadAll(Encoded(f)[..n]) == []
  {
    HeaderRoundTrip(|f.body|, f.listenPort);
    if n >= HEADER_LENGTH {
      assert Encoded(f)[..n][..HEADER_LENGTH] == EncodedHeader(|f.body|, f.listenPort);
    }
  }
}
