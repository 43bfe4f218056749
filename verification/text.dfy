/** Go strings are immutable byte sequences, and `len` counts bytes. This
    module gives them a Dafny shape, and it also provides the decimal
    rendering that `fmt.Sprint` and `fmt.Println` use for integers,
    together with its inverse. */
module Text {

  newtype byte = b: int | 0 <= b < 256

  type Bytes = seq<byte>

  const MINUS: byte := 45
  const DOT: byte := 46
  const SLASH: byte := 47
  const ZERO: byte := 48
  const COLON: byte := 58
  const SPACE: byte := 32

  predicate IsAscii(s: string) {
    forall k :: 0 <= k < |s| ==> s[k] < 128 as char
  }

  /** The bytes of an ASCII literal: one byte per character. */
  function Ascii(s: string): (b: Bytes)
    requires IsAscii(s)
    ensures |b| == |s|
    ensures forall k :: 0 <= k < |b| ==> b[k] as int == s[k] as int
  {
    seq(|s|, k requires 0 <= k < |s| => s[k] as int as byte)
  }

  predicate IsDigit(c: byte) {
    ZERO <= c <= ZERO + 9
  }

  predicate AllDigits(s: Bytes) {
    forall k :: 0 <= k < |s| ==> IsDigit(s[k])
  }

  function DigitOf(d: nat): (c: byte)
    requires d < 10
    ensures IsDigit(c) && (c - ZERO) as int == d
  {
    ZERO + d as byte
  }

  /** The decimal rendering of a natural number as `fmt.Sprint` produces it:
      no sign and no leading zero, so "0" is the only rendering that starts
      with the digit zero. */
  function Decimal(n: nat): (s: Bytes)
    ensures 1 <= |s| && AllDigits(s)
    ensures s[0] == ZERO <==> n == 0
    decreases n
  {
    if n < 10 then [DigitOf(n)] else Decimal(n / 10) + [DigitOf(n % 10)]
  }

  /** Reads a run of decimal digits, most significant first. */
  function ParseDecimal(s: Bytes): nat
    requires AllDigits(s)
  {
    if s == [] then 0
    else 10 * ParseDecimal(s[..|s| - 1]) + (s[|s| - 1] - ZERO) as int
  }

  /** Reading back a rendering gives the number that was rendered. */
  lemma {:induction false} DecimalRoundTrip(n: nat)
    ensures ParseDecimal(Decimal(n)) == n
    decreases n
  {
    if n >= 10 {
      var s := Decimal(n);
      assert s[..|s| - 1] == Decimal(n / 10);
      DecimalRoundTrip(n / 10);
    }
  }

  /** Distinct numbers have distinct renderings. */
  lemma DecimalInjective(m: nat, n: nat)
    ensures Decimal(m) == Decimal(n) ==> m == n
  {
    if Decimal(m) == Decimal(n) {
      DecimalRoundTrip(m);
      DecimalRoundTrip(n);
    }
  }

  /** A digit run that does not start with a zero digit stands for a
      positive number. */
  lemma {:induction false} ParseDecimalPositive(s: Bytes)
    requires 1 <= |s| && AllDigits(s) && s[0] != ZERO
    ensures ParseDecimal(s) >= 1
    decreases |s|
  {
    if |s| > 1 {
      ParseDecimalPositive(s[..|s| - 1]);
    }
  }

  /** The other half of the round trip: every canonical digit run (no
      leading zero unless it is the single digit "0") is the rendering of
      the number it stands for. */
  lemma {:induction false} DecimalCanonical(s: Bytes)
    requires 1 <= |s| && AllDigits(s)
    requires s[0] == ZERO ==> |s| == 1
    ensures Decimal(ParseDecimal(s)) == s
    decreases |s|
  {
    if |s| > 1 {
      var t := s[..|s| - 1];
      DecimalCanonical(t);
      ParseDecimalPositive(t);
      var n := ParseDecimal(s);
      assert n / 10 == ParseDecimal(t) && n % 10 == (s[|s| - 1] - ZERO) as int;
      assert s == t + [s[|s| - 1]];
    }
  }

  /** `fmt.Println` of a signed integer: a minus sign for negative numbers,
      then the decimal rendering of the magnitude. */
  function SignedDecimal(n: int): (s: Bytes)
    ensures 1 <= |s|
    ensures forall k :: 0 <= k < |s| ==> s[k] == MINUS || IsDigit(s[k])
  {
    if n < 0 then [MINUS] + Decimal(-n) else Decimal(n)
  }

  /** Reads back a signed decimal written by `SignedDecimal`. */
  function ParseSigned(s: Bytes): int {
    if 1 <= |s| && s[0] == MINUS && AllDigits(s[1..]) then
      var m: int := ParseDecimal(s[1..]); -m
    else if AllDigits(s) then ParseDecimal(s)
    else 0
  }

  lemma SignedDecimalRoundTrip(n: int)
    ensures ParseSigned(SignedDecimal(n)) == n
  {
    if n < 0 {
      var s := SignedDecimal(n);
      assert s[1..] == Decimal(-n);
      DecimalRoundTrip(-n);
    } else {
      DecimalRoundTrip(n);
    }
  }
}
