/**
 * The pieces of the Java platform that the Chord node relies on, stated as
 * values: null references, exceptions, java.net.InetSocketAddress, and the
 * String operations the wire protocol uses (startsWith, split, integer
 * printing and Integer.parseInt / Long.parseLong).
 */
module JavaLib {

  /** A reference that may be null. */
  datatype Option<+T> = None | Some(value: T)

  /** The exceptions the modelled code can raise without catching them. */
  datatype Exception = NumberFormat | IndexOutOfBounds | IllegalArgument | NullPointer | Arithmetic

  /**
   * How a Java call ends: it returns a value, it throws, or it keeps looping
   * (the last only for loops the model runs with a bounded amount of fuel).
   */
  datatype Outcome<+T> = Returns(value: T) | Throws(ex: Exception) | Hangs

  /**
   * java.net.InetSocketAddress built from a literal IP address: the address
   * text (without the '/' that InetAddress.toString() writes before it) and
   * the port. Two endpoints are equal iff address and port are.
   */
  datatype Endpoint = Endpoint(ip: string, port: int)

  const MinInt: int := -0x8000_0000
  const MaxInt: int := 0x7FFF_FFFF
  const MinLong: int := -0x8000_0000_0000_0000
  const MaxLong: int := 0x7FFF_FFFF_FFFF_FFFF
  const MaxPort: int := 0xFFFF

  /** Number of distinct Java long values, 2^64. */
  const LongRange: int := 0x1_0000_0000_0000_0000

  /**
   * The Java long an exact integer result is stored as: the value in
   * [MinLong, MaxLong] that is congruent to x modulo 2^64 (two's complement
   * wrap-around of long arithmetic).
   */
  function LongWrap(x: int): (r: int)
    ensures MinLong <= r <= MaxLong
    ensures (r - x) % LongRange == 0
    ensures MinLong <= x <= MaxLong ==> r == x
  {
    (x - MinLong) % LongRange + MinLong
  }

  predicate StartsWith(s: string, prefix: string)
  {
    |prefix| <= |s| && s[..|prefix|] == prefix
  }

  // ---------------------------------------------------------------------
  // String.split with a one-character delimiter
  // ---------------------------------------------------------------------

  /** Position of the first occurrence of c in s. */
  function IndexOf(s: string, c: char): (k: nat)
    requires c in s
    ensures k < |s| && s[k] == c && c !in s[..k]
  {
    if s[0] == c then 0
    else
      assert s == [s[0]] + s[1..];
      var k' := IndexOf(s[1..], c);
      assert s[..k' + 1] == [s[0]] + s[1..][..k'];
      k' + 1
  }

  /** The pieces of s between occurrences of c; at least one, possibly empty. */
  function Pieces(s: string, c: char): (r: seq<string>)
    ensures |r| >= 1
    decreases |s|
  {
    if c !in s then [s]
    else
      var k := IndexOf(s, c);
      [s[..k]] + Pieces(s[k + 1..], c)
  }

  /** r without its trailing empty strings. */
  function DropTrailingEmpty(r: seq<string>): (d: seq<string>)
    ensures |d| <= |r| && d == r[..|d|]
    ensures d == [] || d[|d| - 1] != ""
  {
    if r == [] || r[|r| - 1] != "" then r else DropTrailingEmpty(r[..|r| - 1])
  }

  /**
   * s.split(c) for a delimiter that is not special in a regular expression:
   * no occurrence gives [s]; otherwise the pieces with trailing empty
   * strings removed.
   */
  function Split(s: string, c: char): seq<string>
  {
    if c !in s then [s] else DropTrailingEmpty(Pieces(s, c))
  }

  lemma PiecesAfterFirst(a: string, c: char, b: string)
    requires c !in a
    ensures Pieces(a + [c] + b, c) == [a] + Pieces(b, c)
  {
    var s := a + [c] + b;
    assert s[|a|] == c;
    var k := IndexOf(s, c);
    assert k == |a|;
    assert s[..k] == a;
    assert s[k + 1..] == b;
  }

  /** Splitting "a" + c + "b" gives back a and b when neither holds c and b is not empty. */
  lemma {:induction false} SplitTwo(a: string, c: char, b: string)
    requires c !in a && c !in b && b != ""
    ensures Split(a + [c] + b, c) == [a, b]
  {
    var s := a + [c] + b;
    assert s[|a|] == c;
    PiecesAfterFirst(a, c, b);
    assert Pieces(b, c) == [b];
    assert Pieces(s, c) == [a, b];
  }

  // ---------------------------------------------------------------------
  // Numerals: Long.toString, Long.toHexString, Integer.parseInt
  // ---------------------------------------------------------------------

  /** The lower-case digit Java prints for d. */
  function DigitChar(d: nat): char
    requires d < 16
  {
    if d < 10 then ('0' as int + d) as char else ('a' as int + d - 10) as char
  }

  /** The value of a digit character, 16 for a character that is no digit. */
  function DigitValue(ch: char): nat
  {
    if '0' <= ch <= '9' then ch as int - '0' as int
    else if 'a' <= ch <= 'f' then ch as int - 'a' as int + 10
    else 16
  }

  predicate IsNumeral(s: string, base: nat)
  {
    forall i :: 0 <= i < |s| ==> DigitValue(s[i]) < base
  }

  /**
   * The digits of n in the given base, most significant first, without
   * leading zeros ("0" for zero): Long.toString(n) for base 10 and
   * Long.toHexString(n) for base 16, when n is not negative.
   */
  function Numeral(n: nat, base: nat): (s: string)
    requires 2 <= base <= 16
    ensures |s| >= 1 && IsNumeral(s, base)
    decreases n
  {
    if n < base then
      DigitCharValue(n);
      [DigitChar(n)]
    else
      DivideByBase(n, base);
      var d := n % base;
      DigitCharValue(d);
      AppendDigit(Numeral(n / base, base), DigitChar(d), base);
      Numeral(n / base, base) + [DigitChar(d)]
  }

  lemma DigitCharValue(d: nat)
    requires d < 16
    ensures DigitValue(DigitChar(d)) == d
  {
  }

  lemma AppendDigit(p: string, c: char, base: nat)
    requires IsNumeral(p, base) && DigitValue(c) < base
    ensures IsNumeral(p + [c], base)
  {
    var s := p + [c];
    forall i | 0 <= i < |s|
      ensures DigitValue(s[i]) < base
    {
      if i < |p| { assert s[i] == p[i]; }
    }
  }

  /** The number a string of digits stands for, read most significant first. */
  function NumeralValue(s: string, base: nat): nat
  {
    if s == [] then 0 else NumeralValue(s[..|s| - 1], base) * base + DigitValue(s[|s| - 1])
  }

  lemma {:induction false} NumeralRoundTrip(n: nat, base: nat)
    requires 2 <= base <= 16
    ensures NumeralValue(Numeral(n, base), base) == n
    decreases n
  {
    var s := Numeral(n, base);
    if n >= base {
      var q, d := n / base, n % base;
      DivideByBase(n, base);
      NumeralRoundTrip(q, base);
      assert s[..|s| - 1] == Numeral(q, base);
      assert DigitValue(s[|s| - 1]) == d;
      assert NumeralValue(s, base) == q * base + d;
    }
  }

  lemma DivideByBase(n: nat, base: nat)
    requires 2 <= base <= n
    ensures 0 < n / base < n && n % base < base && n == (n / base) * base + n % base
  {
  }

  /** Leading zeros do not change the value of a numeral. */
  lemma {:induction false} LeadingZeros(z: nat, s: string, base: nat)
    ensures NumeralValue(Zeros(z) + s, base) == NumeralValue(s, base)
    decreases z, |s|
  {
    if s == [] {
      if z > 0 {
        assert Zeros(z) + s == Zeros(z - 1) + "0";
        assert (Zeros(z - 1) + "0")[..z - 1] == Zeros(z - 1) + [];
        LeadingZeros(z - 1, [], base);
      }
    } else {
      var t := Zeros(z) + s;
      assert t[..|t| - 1] == Zeros(z) + s[..|s| - 1];
      LeadingZeros(z, s[..|s| - 1], base);
    }
  }

  /** A string of z '0' characters. */
  function Zeros(z: nat): (s: string)
    ensures |s| == z && forall i :: 0 <= i < z ==> s[i] == '0'
  {
    if z == 0 then "" else Zeros(z - 1) + "0"
  }

  /** Integer.toString / Long.toString. */
  function DecimalText(n: int): string
  {
    if n < 0 then "-" + Numeral(-n, 10) else Numeral(n, 10)
  }

  /**
   * Integer.parseInt (range [MinInt, MaxInt]) and Long.parseLong (range
   * [MinLong, MaxLong]): an optional sign, then at least one decimal digit,
   * and a value inside the range; anything else throws NumberFormatException.
   */
  function ParseInteger(s: string, lo: int, hi: int): (r: Outcome<int>)
    ensures r.Returns? ==> lo <= r.value <= hi
    ensures r.Returns? || r == Throws(NumberFormat)
  {
    var signed := |s| > 0 && (s[0] == '-' || s[0] == '+');
    var digits := if signed then s[1..] else s;
    if digits == [] || !IsNumeral(digits, 10) then Throws(NumberFormat)
    else
      var magnitude: int := NumeralValue(digits, 10);
      var v := if signed && s[0] == '-' then -magnitude else magnitude;
      if lo <= v <= hi then Returns(v) else Throws(NumberFormat)
  }

  function ParseInt(s: string): Outcome<int> { ParseInteger(s, MinInt, MaxInt) }

  function ParseLong(s: string): Outcome<int> { ParseInteger(s, MinLong, MaxLong) }

  /** Parsing what Java prints for an in-range number gives that number back. */
  lemma DecimalRoundTrip(n: int, lo: int, hi: int)
    requires lo <= n <= hi
    ensures ParseInteger(DecimalText(n), lo, hi) == Returns(n)
  {
    var digits := Numeral(if n < 0 then -n else n, 10);
    NumeralRoundTrip(if n < 0 then -n else n, 10);
    if n < 0 {
      NegativeText(n);
    } else {
      UnsignedText(digits);
    }
  }

  lemma NegativeText(n: int)
    requires n < 0
    ensures var t := DecimalText(n);
      |t| > 0 && t[0] == '-' && t[1..] == Numeral(-n, 10)
  {
  }

  lemma UnsignedText(digits: string)
    requires |digits| >= 1 && IsNumeral(digits, 10)
    ensures digits[0] != '-' && digits[0] != '+'
  {
    assert DigitValue(digits[0]) < 10;
  }

  /** Printed numbers hold no '_' and no ':', so they survive the splits of the wire protocol. */
  lemma DecimalTextPlain(n: int)
    ensures DecimalText(n) != "" && '_' !in DecimalText(n) && ':' !in DecimalText(n)
  {
    var digits := Numeral(if n < 0 then -n else n, 10);
    assert IsNumeral(digits, 10);
    assert DecimalText(n) == (if n < 0 then "-" else "") + digits;
  }

  /**
   * The text "ip:port" Java builds as
   * address.getAddress().toString() + ":" + address.getPort().
   */
  function AddressText(e: Endpoint): string
  {
    "/" + e.ip + ":" + DecimalText(e.port)
  }
}
