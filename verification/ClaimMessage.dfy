/** The message an Ethereum wallet signs to claim: hex of the account, a decimal
    length, a fixed header and a configured prefix. */
module ClaimMessage {

  type Byte = x: nat | x < 256
  type Bytes = seq<Byte>

  // ----- hex -----

  function HexDigit(n: nat): Byte
    requires n < 16
  {
    if n < 10 then 48 + n else 87 + n
  }

  function HexValue(c: Byte): nat {
    if 48 <= c < 58 then c - 48 else if 97 <= c < 103 then c - 87 else 0
  }

  function HexOfByte(b: Byte): (h: Bytes)
    ensures |h| == 2
  {
    [HexDigit(b / 16), HexDigit(b % 16)]
  }

  function Hex(data: Bytes): Bytes {
    if data == [] then [] else Hex(data[..|data| - 1]) + HexOfByte(data[|data| - 1])
  }

  /** The digits are those of lower-case hex. */
  lemma HexDigitIsText(n: nat)
    requires n < 16
    ensures HexDigit(n) == "0123456789abcdef"[n] as int
  {
  }

  /** Reads hex back, two digits for a byte. */
  function Unhex(h: Bytes): Bytes {
    if |h| < 2 then []
    else Unhex(h[..|h| - 2]) + [16 * HexValue(h[|h| - 2]) + HexValue(h[|h| - 1])]
  }

  method ToAsciiHex(data: Bytes) returns (r: Bytes)
    ensures r == Hex(data)
  {
    r := [];
    for i := 0 to |data|
      invariant r == Hex(data[..i])
    {
      assert data[..i + 1][..i] == data[..i];
      r := r + [HexDigit(data[i] / 16)];
      r := r + [HexDigit(data[i] % 16)];
    }
    assert data[..|data|] == data;
  }

  lemma ByteRoundTrip(b: Byte)
    ensures 16 * HexValue(HexOfByte(b)[0]) + HexValue(HexOfByte(b)[1]) == b
  {
    assert HexValue(HexDigit(b / 16)) == b / 16 && HexValue(HexDigit(b % 16)) == b % 16;
  }

  lemma UnhexOneMore(h: Bytes, b: Byte)
    ensures Unhex(h + HexOfByte(b)) == Unhex(h) + [b]
  {
    var more := h + HexOfByte(b);
    assert more[..|more| - 2] == h && more[|more| - 2] == HexOfByte(b)[0] && more[|more| - 1] == HexOfByte(b)[1];
    ByteRoundTrip(b);
  }

  lemma {:induction false} HexDoubles(data: Bytes)
    ensures |Hex(data)| == 2 * |data|
  {
    if data == [] {
    } else {
      HexDoubles(data[..|data| - 1]);
    }
  }

  /** Hex is twice as long and decodes back. */
  lemma {:induction false} HexRoundTrip(data: Bytes)
    ensures |Hex(data)| == 2 * |data|
    ensures Unhex(Hex(data)) == data
  {
    HexDoubles(data);
    if data == [] {
    } else {
      var front, b := data[..|data| - 1], data[|data| - 1];
      HexRoundTrip(front);
      UnhexOneMore(Hex(front), b);
      assert Hex(data) == Hex(front) + HexOfByte(b);
      assert data == front + [b];
    }
  }

  // ----- decimal -----

  function Decimal(l: nat): Bytes {
    if l == 0 then [] else Decimal(l / 10) + [48 + l % 10]
  }

  function Value(digits: Bytes): int {
    if digits == [] then 0
    else 10 * Value(digits[..|digits| - 1]) + digits[|digits| - 1] - 48
  }

  function Reverse(s: Bytes): Bytes {
    if s == [] then [] else [s[|s| - 1]] + Reverse(s[..|s| - 1])
  }

  /** The decimal denotes the number. */
  lemma {:induction false} DecimalValue(l: nat)
    ensures Value(Decimal(l)) == l
  {
    if l == 0 {
    } else {
      DecimalValue(l / 10);
      var d := Decimal(l);
      assert d[..|d| - 1] == Decimal(l / 10);
    }
  }

  /** It is made of digits and, unless the number is zero, has no leading zero;
      zero is printed as nothing. */
  lemma {:induction false} DecimalIsCanonical(l: nat)
    ensures forall i :: 0 <= i < |Decimal(l)| ==> 48 <= Decimal(l)[i] <= 57
    ensures if l > 0 then |Decimal(l)| > 0 && Decimal(l)[0] != 48 else Decimal(l) == []
  {
    if l == 0 {
    } else {
      DecimalIsCanonical(l / 10);
      var front := Decimal(l / 10);
      assert Decimal(l) == front + [48 + l % 10];
      if l < 10 { assert front == []; } else { assert Decimal(l)[0] == front[0]; }
    }
  }

  lemma {:induction false} DecimalLengthMonotone(m: nat, n: nat)
    requires m <= n
    ensures |Decimal(m)| <= |Decimal(n)|
  {
    if m == 0 {
    } else {
      DecimalLengthMonotone(m / 10, n / 10);
    }
  }

  // ----- the message -----

  /** 0x19 "Ethereum Signed Message:" and a newline. */
  const HEADER: Bytes := [
    0x19, 0x45, 0x74, 0x68, 0x65, 0x72, 0x65, 0x75, 0x6D, 0x20, 0x53, 0x69, 0x67, 0x6E, 0x65, 0x64, 0x20,
    0x4D, 0x65, 0x73, 0x73, 0x61, 0x67, 0x65, 0x3A, 0x0A]

  function Signable(what: Bytes, prefix: Bytes): Bytes {
    HEADER + Decimal(|prefix| + |what|) + prefix + what
  }

  /** The header is 0x19 and then a fixed text. */
  lemma HeaderIsText()
    ensures var text := "Ethereum Signed Message:\n";
            && |HEADER| == 1 + |text| && HEADER[0] == 0x19
            && forall i :: 0 <= i < |text| ==> HEADER[i + 1] == text[i] as int
  {
  }

  lemma Associate(a: Bytes, b: Bytes, c: Bytes)
    ensures a + b + c == a + (b + c)
  {
  }

  /** After the header come digits that denote the length of all that follows them:
      the prefix and then the data. */
  lemma SignableStructure(what: Bytes, prefix: Bytes)
    ensures exists digits: Bytes ::
              && Signable(what, prefix) == HEADER + digits + (prefix + what)
              && Value(digits) == |prefix + what|
              && (forall i :: 0 <= i < |digits| ==> 48 <= digits[i] <= 57)
              && (digits != [] ==> digits[0] != 48)
  {
    var digits := Decimal(|prefix| + |what|);
    DecimalValue(|prefix| + |what|);
    DecimalIsCanonical(|prefix| + |what|);
    Associate(HEADER + digits, prefix, what);
    assert Value(digits) == |prefix + what|;
  }

  /** Digits are produced last first and then turned round. */
  method EthereumSignableMessage(what: Bytes, prefix: Bytes) returns (v: Bytes)
    ensures v == Signable(what, prefix)
  {
    var l: nat := |prefix| + |what|;
    var rev: Bytes := [];
    while l > 0
      invariant Decimal(l) + Reverse(rev) == Decimal(|prefix| + |what|)
    {
      var digit: Byte := 48 + l % 10;
      assert (rev + [digit])[..|rev|] == rev;
      assert Reverse(rev + [digit]) == [digit] + Reverse(rev);
      rev := rev + [digit];
      l := l / 10;
    }
    assert Decimal(l) + Reverse(rev) == Reverse(rev);
    v := HEADER;
    v := v + Reverse(rev);
    v := v + prefix;
    v := v + what;
  }

  /** Equal messages carry equal data, even of different length. */
  lemma SignableInjective(a: Bytes, b: Bytes, prefix: Bytes)
    requires Signable(a, prefix) == Signable(b, prefix)
    ensures a == b
  {
    if |a| < |b| {
      DecimalLengthMonotone(|prefix| + |a|, |prefix| + |b|);
    } else if |b| < |a| {
      DecimalLengthMonotone(|prefix| + |b|, |prefix| + |a|);
    }
    assert |a| == |b| by {
      assert |Signable(a, prefix)| == |HEADER| + |Decimal(|prefix| + |a|)| + |prefix| + |a|;
      assert |Signable(b, prefix)| == |HEADER| + |Decimal(|prefix| + |b|)| + |prefix| + |b|;
    }
    var k := |Signable(a, prefix)| - |a|;
    assert a == Signable(a, prefix)[k..];
    assert b == Signable(b, prefix)[k..];
  }

  /** The signed message determines the claiming account. */
  lemma SignedAccountIsUnique(x: Bytes, y: Bytes, prefix: Bytes)
    requires Signable(Hex(x), prefix) == Signable(Hex(y), prefix)
    ensures x == y
  {
    SignableInjective(Hex(x), Hex(y), prefix);
    HexRoundTrip(x);
    HexRoundTrip(y);
  }
}
