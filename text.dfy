/**
 * Byte strings and the few text operations the library applies to them:
 * ASCII whitespace trimming (Go's bytes.TrimSpace / strings.TrimSpace on
 * ASCII input), joining with a separator (strings.Join), and the `%d` and
 * `%X` integer formats.
 */
module Text {

  /** One byte. Go's `string` and `[]byte` are both byte sequences. */
  type byte = c: char | c as int < 0x100
  type Bytes = seq<byte>

  /** The ASCII white-space bytes: '\t', '\n', '\v', '\f', '\r' and ' '. */
  predicate IsSpace(c: byte) {
    c == ' ' || '\t' <= c <= '\r'
  }

  /** Neither end of `s` is white space. */
  predicate Trimmed(s: Bytes) {
    s == [] || (!IsSpace(s[0]) && !IsSpace(s[|s| - 1]))
  }

  /** The first position at or after `a` that is not white space. */
  function SkipSpaces(s: Bytes, a: nat): (k: nat)
    requires a <= |s|
    ensures a <= k <= |s|
    ensures forall i :: a <= i < k ==> IsSpace(s[i])
    ensures k < |s| ==> !IsSpace(s[k])
    decreases |s| - a
  {
    if a < |s| && IsSpace(s[a]) then SkipSpaces(s, a + 1) else a
  }

  /** The end of `s[a..b]` once its trailing white space is dropped. */
  function DropSpaces(s: Bytes, a: nat, b: nat): (e: nat)
    requires a <= b <= |s|
    ensures a <= e <= b
    ensures forall i :: e <= i < b ==> IsSpace(s[i])
    ensures a < e ==> !IsSpace(s[e - 1])
    decreases b
  {
    if a < b && IsSpace(s[b - 1]) then DropSpaces(s, a, b - 1) else b
  }

  /** TrimSpace: `s` without its leading and trailing white space. */
  function TrimSpace(s: Bytes): (r: Bytes)
  {
    var a := SkipSpaces(s, 0);
    s[a..DropSpaces(s, a, |s|)]
  }

  /** TrimSpace returns the slice of `s` between a white-space prefix and a
      white-space suffix, and neither end of that slice is white space. */
  lemma TrimSpaceIsSlice(s: Bytes)
    ensures exists a, b ::
              && 0 <= a <= b <= |s| && TrimSpace(s) == s[a..b]
              && (forall i :: 0 <= i < a ==> IsSpace(s[i]))
              && (forall i :: b <= i < |s| ==> IsSpace(s[i]))
    ensures Trimmed(TrimSpace(s))
  {
    var a := SkipSpaces(s, 0);
    var b := DropSpaces(s, a, |s|);
    var r := s[a..b];
    assert TrimSpace(s) == r;
    if r != [] {
      assert r[0] == s[a] && r[|r| - 1] == s[b - 1];
    }
  }

  /** A byte string with no white space at either end is its own trimming. */
  lemma TrimSpaceOfTrimmed(s: Bytes)
    requires Trimmed(s)
    ensures TrimSpace(s) == s
  {
    assert s[0..|s|] == s;
  }

  /** Trimming twice is trimming once (the per-day file handler trims twice). */
  lemma TrimSpaceIdempotent(s: Bytes)
    ensures TrimSpace(TrimSpace(s)) == TrimSpace(s)
  {
    TrimSpaceIsSlice(s);
    TrimSpaceOfTrimmed(TrimSpace(s));
  }

  /** strings.Join: the values with `sep` between each neighbouring pair. */
  function JoinWith(values: seq<Bytes>, sep: Bytes): (r: Bytes)
    ensures values == [] ==> r == []
    ensures |values| == 1 ==> r == values[0]
    ensures |values| > 1 ==> r == values[0] + sep + JoinWith(values[1..], sep)
  {
    if values == [] then []
    else if |values| == 1 then values[0]
    else values[0] + sep + JoinWith(values[1..], sep)
  }

  // ---------------------------------------------------------------- %d

  function DigitChar(d: nat): (c: byte)
    requires d < 10
  {
    ('0' as int + d) as char
  }

  function DigitValue(c: byte): nat {
    if '0' <= c <= '9' then (c as int - '0' as int) else 0
  }

  /** The decimal digits of `n`, most significant first, without leading zeros. */
  function DecimalDigits(n: nat): (r: Bytes)
    ensures |r| > 0
    ensures forall i :: 0 <= i < |r| ==> '0' <= r[i] <= '9'
    ensures n >= 10 ==> r[0] != '0'
    decreases n
  {
    if n < 10 then [DigitChar(n)] else DecimalDigits(n / 10) + [DigitChar(n % 10)]
  }

  /** Go's `%d`: a leading '-' for negative values, then the digits. */
  function Decimal(n: int): (r: Bytes)
  {
    if n < 0 then "-" + DecimalDigits(-n) else DecimalDigits(n)
  }

  function ParseDigits(s: Bytes): nat {
    if s == [] then 0 else 10 * ParseDigits(s[..|s| - 1]) + DigitValue(s[|s| - 1])
  }

  function ParseDecimal(s: Bytes): int {
    if s != [] && s[0] == '-' then 0 - ParseDigits(s[1..]) else ParseDigits(s)
  }

  lemma {:induction false} DecimalDigitsRoundTrip(n: nat)
    ensures ParseDigits(DecimalDigits(n)) == n
    decreases n
  {
    if n >= 10 {
      var r := DecimalDigits(n);
      assert r[..|r| - 1] == DecimalDigits(n / 10);
      DecimalDigitsRoundTrip(n / 10);
    }
  }

  /** `%d` loses nothing: reading the text back gives the number. */
  lemma DecimalRoundTrip(n: int)
    ensures ParseDecimal(Decimal(n)) == n
  {
    if n < 0 {
      var d := DecimalDigits(-n);
      assert Decimal(n) == "-" + d;
      assert ("-" + d)[0] == '-' && ("-" + d)[1..] == d;
      DecimalDigitsRoundTrip(-n);
    } else {
      DecimalDigitsRoundTrip(n);
    }
  }

  // ---------------------------------------------------------------- %X

  function Pow(b: nat, w: nat): (r: nat)
    requires b >= 2
    ensures r >= 1
  {
    if w == 0 then 1 else b * Pow(b, w - 1)
  }

  /** The digit `d` in upper-case hex (for d < 10 this is the decimal digit). */
  function HexChar(d: nat): (c: byte)
    requires d < 16
  {
    if d < 10 then ('0' as int + d) as char else ('A' as int + d - 10) as char
  }

  function HexValue(c: byte): nat {
    if '0' <= c <= '9' then (c as int - '0' as int)
    else if 'A' <= c <= 'F' then (c as int - 'A' as int + 10)
    else 0
  }

  /** The last `w` digits of `n` in base `b`, most significant first, padded
      with zeros. */
  function Padded(b: nat, w: nat, n: nat): (r: Bytes)
    requires 2 <= b <= 16
    ensures |r| == w
  {
    if w == 0 then [] else Padded(b, w - 1, n / b) + [HexChar(n % b)]
  }

  /** Go's `%0.8X`: upper-case hex digits, padded with zeros to at least 8. */
  function Hex8(n: nat): (r: Bytes)
    decreases n
  {
    if n < Pow(16, 8) then Padded(16, 8, n) else Hex8(n / 16) + [HexChar(n % 16)]
  }

  /** An upper-case hex digit. */
  predicate IsHexDigit(c: byte) {
    '0' <= c <= '9' || 'A' <= c <= 'F'
  }

  lemma {:induction false} PaddedDigits(b: nat, w: nat, n: nat)
    requires 2 <= b <= 16
    ensures forall i :: 0 <= i < |Padded(b, w, n)| ==> IsHexDigit(Padded(b, w, n)[i])
  {
    if w > 0 {
      PaddedDigits(b, w - 1, n / b);
    }
  }

  function ParseHex(s: Bytes): nat {
    if s == [] then 0 else 16 * ParseHex(s[..|s| - 1]) + HexValue(s[|s| - 1])
  }

  lemma {:induction false} PaddedHexRoundTrip(w: nat, n: nat)
    requires n < Pow(16, w)
    ensures ParseHex(Padded(16, w, n)) == n
  {
    if w > 0 {
      var r := Padded(16, w, n);
      assert r[..|r| - 1] == Padded(16, w - 1, n / 16);
      PaddedHexRoundTrip(w - 1, n / 16);
    }
  }

  /** An index printed with `%0.8X` has only upper-case hex digits, at least
      8 of them and exactly 8 while it fits in 32 bits, and reading the digits
      back as hex gives the index. */
  lemma {:induction false} Hex8Properties(n: nat)
    ensures n < Pow(16, 8) ==> |Hex8(n)| == 8
    ensures |Hex8(n)| >= 8
    ensures ParseHex(Hex8(n)) == n
    ensures forall i :: 0 <= i < |Hex8(n)| ==> IsHexDigit(Hex8(n)[i])
    decreases n
  {
    if n < Pow(16, 8) {
      PaddedHexRoundTrip(8, n);
      PaddedDigits(16, 8, n);
    } else {
      Hex8Properties(n / 16);
      var r := Hex8(n);
      assert r[..|r| - 1] == Hex8(n / 16);
    }
  }
}
