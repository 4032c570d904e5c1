/** The chat wire format: a four-byte decimal header and a body of at most 512 bytes. */
module ChatMessage {
  import opened Common

  newtype byte = b: int | 0 <= b < 256

  const HEADER_LENGTH: nat := 4
  const MAX_BODY_LENGTH: nat := 512

  // ---- the C library pieces the header goes through ----

  predicate IsSpace(c: byte) { c == 32 || 9 <= c <= 13 }

  predicate IsDigit(c: byte) { 48 <= c <= 57 }

  /** What strncat copies: the bytes before the first NUL. */
  function CString(s: seq<byte>): seq<byte> {
    if s == [] || s[0] == 0 then [] else [s[0]] + CString(s[1..])
  }

  function AfterSpaces(s: seq<byte>): seq<byte> {
    if s != [] && IsSpace(s[0]) then AfterSpaces(s[1..]) else s
  }

  /** The value of the leading digits, continuing from the value read so far. */
  function Digits(s: seq<byte>, soFar: nat): nat
    decreases |s|
  {
    if s == [] || !IsDigit(s[0]) then soFar else Digits(s[1..], 10 * soFar + (s[0] - 48) as int)
  }

  function Atoi(s: seq<byte>): int {
    var t := AfterSpaces(s);
    if t == [] then 0
    else if t[0] == 45 then 0 - Digits(t[1..], 0)
    else if t[0] == 43 then Digits(t[1..], 0)
    else Digits(t, 0)
  }

  /** The body length a header announces. A negative value becomes a huge size_t, so it is refused
      together with the values above the maximum. */
  function Decode(header: seq<byte>): Option<nat> {
    var value := Atoi(CString(header));
    if 0 <= value <= MAX_BODY_LENGTH then Some(value) else None
  }

  function Decimal(n: nat): seq<byte> {
    if n < 10 then [(48 + n) as byte] else Decimal(n / 10) + [(48 + n % 10) as byte]
  }

  function Spaces(k: nat): seq<byte> {
    if k == 0 then [] else [32] + Spaces(k - 1)
  }

  /** sprintf's "%4d" of a nonnegative number. */
  function Encode(n: nat): seq<byte> {
    var digits := Decimal(n);
    if |digits| < HEADER_LENGTH then Spaces(HEADER_LENGTH - |digits|) + digits else digits
  }

  // ---- printing and reading a header ----

  lemma {:induction false} DigitsOfDecimal(n: nat, tail: seq<byte>)
    ensures Digits(Decimal(n) + tail, 0) == Digits(tail, n)
  {
    if n < 10 {
      assert (Decimal(n) + tail)[1..] == tail;
    } else {
      var last := [(48 + n % 10) as byte];
      assert Decimal(n) + tail == Decimal(n / 10) + (last + tail);
      DigitsOfDecimal(n / 10, last + tail);
      assert (last + tail)[1..] == tail;
    }
  }

  lemma {:induction false} DecimalIsDigits(n: nat)
    ensures Decimal(n) != [] && forall i :: 0 <= i < |Decimal(n)| ==> IsDigit(Decimal(n)[i])
  {
    if n >= 10 {
      DecimalIsDigits(n / 10);
    }
  }

  lemma {:induction false} SkipSpaces(k: nat, s: seq<byte>)
    requires s != [] && !IsSpace(s[0])
    ensures AfterSpaces(Spaces(k) + s) == s
  {
    if k == 0 {
      assert Spaces(k) + s == s;
    } else {
      SkipSpaces(k - 1, s);
      assert (Spaces(k) + s)[1..] == Spaces(k - 1) + s;
    }
  }

  lemma {:induction false} NoNul(s: seq<byte>)
    requires forall i :: 0 <= i < |s| ==> s[i] != 0
    ensures CString(s) == s
  {
    if s != [] {
      NoNul(s[1..]);
    }
  }

  lemma {:induction false} SpacesAreSpaces(k: nat)
    ensures |Spaces(k)| == k && forall i :: 0 <= i < k ==> Spaces(k)[i] == 32
  {
    if k > 0 {
      SpacesAreSpaces(k - 1);
    }
  }

  /** atoi undoes sprintf on every nonnegative number, whatever its width. */
  lemma AtoiUndoesPrint(n: nat)
    ensures Atoi(CString(Encode(n))) == n
  {
    DecimalIsDigits(n);
    var digits := Decimal(n);
    var k := if |digits| < HEADER_LENGTH then HEADER_LENGTH - |digits| else 0;
    assert Encode(n) == Spaces(k) + digits;
    SpacesAreSpaces(k);
    NoNul(Encode(n));
    SkipSpaces(k, digits);
    DigitsOfDecimal(n, []);
    assert digits + [] == digits;
  }

  lemma {:induction false} DecimalWidth(n: nat, width: nat, limit: nat)
    requires width > 0 && limit == Power10(width) && n < limit
    ensures |Decimal(n)| <= width
  {
    if n >= 10 {
      assert limit == 10 * Power10(width - 1);
      assert width > 1;
      DecimalWidth(n / 10, width - 1, Power10(width - 1));
    }
  }

  function Power10(k: nat): nat {
    if k == 0 then 1 else 10 * Power10(k - 1)
  }

  // ---- what a received header means ----

  /** The number a string of digits denotes. */
  function Value(digits: seq<byte>): nat
    requires forall i :: 0 <= i < |digits| ==> IsDigit(digits[i])
  {
    if digits == [] then 0
    else
      var last := digits[|digits| - 1];
      assert IsDigit(last);
      10 * Value(digits[..|digits| - 1]) + (last - 48) as nat
  }

  lemma {:induction false} DigitsAreTheValue(digits: seq<byte>, tail: seq<byte>)
    requires forall i :: 0 <= i < |digits| ==> IsDigit(digits[i])
    ensures Digits(digits + tail, 0) == Digits(tail, Value(digits))
    decreases |digits|
  {
    if digits == [] {
      assert digits + tail == tail;
    } else {
      var n := |digits| - 1;
      var rest := [digits[n]] + tail;
      assert digits + tail == digits[..n] + rest;
      DigitsAreTheValue(digits[..n], rest);
      assert rest[1..] == tail;
    }
  }

  lemma {:induction false} AfterAllSpaces(blanks: seq<byte>, s: seq<byte>)
    requires forall i :: 0 <= i < |blanks| ==> IsSpace(blanks[i])
    requires s == [] || !IsSpace(s[0])
    ensures AfterSpaces(blanks + s) == s
  {
    if blanks == [] {
      assert blanks + s == s;
    } else {
      AfterAllSpaces(blanks[1..], s);
      assert (blanks + s)[1..] == blanks[1..] + s;
    }
  }

  /** A string taken apart: blanks, at most one sign, digits, perhaps none, and what follows them. */
  datatype Parts = Parts(blanks: seq<byte>, sign: seq<byte>, digits: seq<byte>, tail: seq<byte>) {
    function Whole(): seq<byte> { blanks + (sign + (digits + tail)) }

    ghost predicate Proper() {
      && (forall i :: 0 <= i < |blanks| ==> IsSpace(blanks[i]))
      && (sign == [] || sign == [43] || sign == [45])
      && (forall i :: 0 <= i < |digits| ==> IsDigit(digits[i]))
      && (tail == [] || !IsDigit(tail[0]))
      && (sign == [] && digits == [] && tail != [] ==> !IsSpace(tail[0]) && tail[0] != 43 && tail[0] != 45)
    }

    ghost function Number(): int
      requires Proper()
    {
      if sign == [45] then 0 - Value(digits) else Value(digits)
    }
  }

  /** atoi reads the number the digits denote, under the sign. */
  lemma AtoiReadsTheNumber(p: Parts)
    requires p.Proper()
    ensures Atoi(p.Whole()) == p.Number()
  {
    var rest := p.digits + p.tail;
    DigitsAreTheValue(p.digits, p.tail);
    AfterAllSpaces(p.blanks, p.sign + rest);
    if p.sign == [] {
      assert p.sign + rest == rest;
    } else {
      assert (p.sign + rest)[1..] == rest;
    }
  }

  lemma {:induction false} TakeApart(s: seq<byte>) returns (p: Parts)
    ensures p.Proper() && p.Whole() == s
    decreases |s|
  {
    if s != [] && IsSpace(s[0]) {
      var q := TakeApart(s[1..]);
      p := q.(blanks := [s[0]] + q.blanks);
      assert s == [s[0]] + s[1..];
    } else if s != [] && (s[0] == 43 || s[0] == 45) {
      var digits, tail := LeadingDigits(s[1..]);
      p := Parts([], [s[0]], digits, tail);
      assert s == [s[0]] + s[1..];
    } else {
      var digits, tail := LeadingDigits(s);
      p := Parts([], [], digits, tail);
    }
  }

  lemma {:induction false} LeadingDigits(s: seq<byte>) returns (digits: seq<byte>, tail: seq<byte>)
    ensures digits + tail == s && (tail == [] || !IsDigit(tail[0]))
    ensures forall i :: 0 <= i < |digits| ==> IsDigit(digits[i])
    decreases |s|
  {
    if s != [] && IsDigit(s[0]) {
      digits, tail := LeadingDigits(s[1..]);
      digits := [s[0]] + digits;
      assert s == [s[0]] + s[1..];
    } else {
      digits, tail := [], s;
    }
  }

  /** Every header, up to its first NUL, can be taken apart, in whatever way it is the same number; and
      the header announces a length if and only if that number is one from 0 to 512, which then is it. */
  lemma WhatEveryHeaderAnnounces(header: seq<byte>)
    ensures exists p: Parts :: p.Proper() && p.Whole() == CString(header)
    ensures forall p: Parts, n: nat :: p.Proper() && p.Whole() == CString(header) ==>
      (Decode(header) == Some(n) <==> p.Number() == n <= MAX_BODY_LENGTH)
  {
    var p := TakeApart(CString(header));
    forall q: Parts, n: nat | q.Proper() && q.Whole() == CString(header)
      ensures Decode(header) == Some(n) <==> q.Number() == n <= MAX_BODY_LENGTH
    {
      AtoiReadsTheNumber(q);
    }
  }

  // ---- the printed header ----

  ghost predicate AllDigits(s: seq<byte>) {
    forall i :: 0 <= i < |s| ==> IsDigit(s[i])
  }

  /** The bytes are blanks and then, from position k on, the digits of n without a leading zero. */
  ghost predicate PrintsFrom(s: seq<byte>, n: nat, k: nat) {
    && k < |s| && (forall i :: 0 <= i < k ==> s[i] == 32)
    && AllDigits(s[k..]) && Value(s[k..]) == n && (s[k] == 48 ==> |s| - k == 1)
  }

  ghost predicate Prints(s: seq<byte>, n: nat) {
    exists k: nat :: PrintsFrom(s, n, k)
  }

  lemma {:induction false} DecimalHasValue(n: nat)
    ensures Decimal(n) != [] && AllDigits(Decimal(n)) && Value(Decimal(n)) == n
    ensures Decimal(n)[0] == 48 ==> |Decimal(n)| == 1
    ensures n > 0 ==> Decimal(n)[0] != 48
  {
    if n >= 10 {
      DecimalHasValue(n / 10);
      var last := (48 + n % 10) as byte;
      assert Decimal(n)[..|Decimal(n)| - 1] == Decimal(n / 10);
    }
  }

  lemma DecimalStep(n: nat, last: byte)
    requires n > 0 && IsDigit(last)
    ensures Decimal(10 * n + (last - 48) as nat) == Decimal(n) + [last]
  {
  }

  lemma {:induction false} DigitsWithoutLeadingZero(s: seq<byte>)
    requires s != [] && AllDigits(s) && (s[0] == 48 ==> |s| == 1)
    ensures Decimal(Value(s)) == s && (s[0] != 48 ==> Value(s) > 0)
    decreases |s|
  {
    var init, last := s[..|s| - 1], s[|s| - 1];
    assert IsDigit(last) && s == init + [last];
    assert Value(s) == 10 * Value(init) + (last - 48) as nat;
    if init == [] {
      assert Value(s) == (last - 48) as nat;
    } else {
      assert AllDigits(init) && init[0] == s[0];
      DigitsWithoutLeadingZero(init);
      DecimalStep(Value(init), last);
    }
  }

  /** Every length a message can have prints to four bytes, blanks and then its digits without a leading
      zero, that read back as that length; and no other four bytes are of that form. */
  lemma HeaderRoundTrip(n: nat)
    requires n <= MAX_BODY_LENGTH
    ensures |Encode(n)| == HEADER_LENGTH && Decode(Encode(n)) == Some(n)
    ensures forall h: seq<byte> :: |h| == HEADER_LENGTH ==> (Prints(h, n) <==> h == Encode(n))
  {
    AtoiUndoesPrint(n);
    EncodePrints(n);
    forall h: seq<byte> | |h| == HEADER_LENGTH && Prints(h, n) ensures h == Encode(n) {
      OnlyPrint(h, n);
    }
  }

  lemma EncodePrints(n: nat)
    requires n <= MAX_BODY_LENGTH
    ensures |Encode(n)| == HEADER_LENGTH && Prints(Encode(n), n)
  {
    assert Power10(3) == 1000;
    DecimalWidth(n, 3, 1000);
    DecimalHasValue(n);
    var k: nat := HEADER_LENGTH - |Decimal(n)|;
    SpacesAreSpaces(k);
    assert Encode(n)[k..] == Decimal(n);
    assert PrintsFrom(Encode(n), n, k);
  }

  lemma OnlyPrint(h: seq<byte>, n: nat)
    requires |h| == HEADER_LENGTH && Prints(h, n)
    ensures h == Encode(n)
  {
    var k: nat :| PrintsFrom(h, n, k);
    assert h[k..][0] == h[k];
    DigitsWithoutLeadingZero(h[k..]);
    SpacesAreSpaces(k);
    assert h == h[..k] + h[k..] && h[..k] == Spaces(k);
  }

  /** Nothing behind a NUL is read. */
  lemma {:induction false} NothingBehindNul(s: seq<byte>, tail: seq<byte>)
    ensures CString(s + [0] + tail) == CString(s)
  {
    if s != [] {
      assert (s + [0] + tail)[1..] == s[1..] + [0] + tail;
      NothingBehindNul(s[1..], tail);
    }
  }

  /** Reading is not injective: other headers announce the same length, so relaying the received
      header bytes differs from printing the length again. */
  lemma HeadersAreNotCanonical()
    ensures Decode([48, 48, 55, 32]) == Some(7) && Encode(7) != [48, 48, 55, 32]
    ensures Decode([97, 98, 99, 100]) == Some(0)
    ensures Decode([45, 49, 32, 32]) == None
    ensures Decode([9, 10, 43, 55]) == Some(7) && Decode([11, 12, 13, 55]) == Some(7)
  {
    PaddedSeven();
    NoNul([97, 98, 99, 100]);
    MinusOne();
    AfterAnyBlanks();
  }

  lemma AfterAnyBlanks()
    ensures Decode([9, 10, 43, 55]) == Some(7) && Decode([11, 12, 13, 55]) == Some(7)
  {
    var signed, plain := Parts([9, 10], [43], [55], []), Parts([11, 12, 13], [], [55], []);
    NoNul([9, 10, 43, 55]);
    NoNul([11, 12, 13, 55]);
    assert [55][..0] == [] && Value([55]) == 7;
    AtoiReadsTheNumber(signed);
    AtoiReadsTheNumber(plain);
    assert signed.Whole() == [9, 10, 43, 55] && plain.Whole() == [11, 12, 13, 55];
  }

  lemma PaddedSeven()
    ensures Decode([48, 48, 55, 32]) == Some(7) && Encode(7) != [48, 48, 55, 32]
  {
    NoNul([48, 48, 55, 32]);
    assert [48, 48, 55, 32][1..] == [48, 55, 32] && [48, 55, 32][1..] == [55, 32] && [55, 32][1..] == [32];
    assert Digits([48, 48, 55, 32], 0) == Digits([48, 55, 32], 0) == Digits([55, 32], 0) == Digits([32], 7) == 7;
    assert Encode(7)[0] == 32;
  }

  lemma MinusOne()
    ensures Decode([45, 49, 32, 32]) == None
  {
    NoNul([45, 49, 32, 32]);
    assert [45, 49, 32, 32][1..] == [49, 32, 32] && [49, 32, 32][1..] == [32, 32];
    assert Digits([49, 32, 32], 0) == Digits([32, 32], 1) == 1;
  }

  // ---- a message ----

  /** A received or composed message: the four header bytes as they are in the buffer, and the body. */
  datatype Message = Message(header: seq<byte>, body: seq<byte>) {
    function Wire(): seq<byte> { header + body }

    ghost predicate WellFormed() {
      |header| == HEADER_LENGTH && Decode(header) == Some(|body|)
    }
  }

  function Clamped(length: nat): nat {
    if length > MAX_BODY_LENGTH then MAX_BODY_LENGTH else length
  }

  /** What the client composes from an input line: the line cut to the maximum, under its header. */
  function Compose(line: seq<byte>): Message {
    var body := line[..Clamped(|line|)];
    Message(Encode(|body|), body)
  }

  lemma ComposedIsWellFormed(line: seq<byte>)
    ensures Compose(line).WellFormed() && Prints(Compose(line).header, |Compose(line).body|)
    ensures Compose(line).body <= line
    ensures |Compose(line).body| == if |line| <= 512 then |line| else 512
  {
    HeaderRoundTrip(Clamped(|line|));
  }

  class ChatMessageBuffer {
    const data: array<byte>
    var bodyLength: nat

    ghost predicate Valid()
      reads this
    {
      data.Length == HEADER_LENGTH + MAX_BODY_LENGTH && bodyLength <= MAX_BODY_LENGTH
    }

    constructor ()
      ensures Valid() && fresh(data) && bodyLength == 0
    {
      data := new byte[HEADER_LENGTH + MAX_BODY_LENGTH];
      bodyLength := 0;
    }

    /** What a copy of this buffer carries onto the wire. */
    function View(): Message
      requires Valid()
      reads this, data
    {
      Message(data[..HEADER_LENGTH], data[HEADER_LENGTH..HEADER_LENGTH + bodyLength])
    }

    method SetBodyLength(newLength: nat)
      requires Valid()
      modifies this`bodyLength
      ensures Valid() && bodyLength == Clamped(newLength)
    {
      bodyLength := newLength;
      if bodyLength > MAX_BODY_LENGTH {
        bodyLength := MAX_BODY_LENGTH;
      }
    }

    method DecodeHeader() returns (ok: bool)
      requires Valid()
      modifies this`bodyLength
      ensures Valid()
      ensures ok <==> Decode(data[..HEADER_LENGTH]).Some?
      ensures bodyLength == if ok then Decode(data[..HEADER_LENGTH]).value else 0
    {
      var value := Atoi(CString(data[..HEADER_LENGTH]));
      if value < 0 || value > MAX_BODY_LENGTH {
        bodyLength := 0;
        return false;
      }
      bodyLength := value;
      return true;
    }

    method EncodeHeader()
      requires Valid()
      modifies data
      ensures data[..HEADER_LENGTH] == Encode(bodyLength)
      ensures data[HEADER_LENGTH..] == old(data[HEADER_LENGTH..])
      ensures View() == Message(Encode(bodyLength), old(View().body))
      ensures View().WellFormed() && Prints(data[..HEADER_LENGTH], bodyLength)
    {
      HeaderRoundTrip(bodyLength);
      var header := Encode(bodyLength);
      forall i | 0 <= i < HEADER_LENGTH {
        data[i] := header[i];
      }
    }

    /** The bytes an async_read of the header, or of the body, puts into the buffer. */
    method Receive(at: nat, bytes: seq<byte>)
      requires Valid() && at + |bytes| <= data.Length
      modifies data
      ensures data[..at] == old(data[..at])
      ensures data[at..at + |bytes|] == bytes
      ensures data[at + |bytes|..] == old(data[at + |bytes|..])
    {
      forall i | 0 <= i < |bytes| {
        data[at + i] := bytes[i];
      }
    }

    /** What main does with an input line. */
    method ComposeLine(line: seq<byte>)
      requires Valid()
      modifies this`bodyLength, data
      ensures Valid() && View() == Compose(line)
    {
      SetBodyLength(|line|);
      var body := line[..bodyLength];
      Receive(HEADER_LENGTH, body);
      assert View().body == body;
      EncodeHeader();
    }
  }
}
