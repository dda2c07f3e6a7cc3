/** Option, the one wrapper the model needs for partial readers. */
module Wrappers {
  datatype Option<+T> = None | Some(value: T)
}

/**
 * Characters and bytes as the JVM sees them in MainActivity.kt:
 * DataOutputStream.writeBytes turns a String into bytes, and a Long is
 * turned into text by a string template.
 */
module Text {
  import opened Wrappers

  /** One octet on the wire (a Kotlin Byte read as unsigned). */
  type Byte = b: int | 0 <= b < 256

  /** Kotlin's Long, the type of System.currentTimeMillis(). */
  type Long = n: int | -0x8000_0000_0000_0000 <= n < 0x8000_0000_0000_0000

  /**
   * The UTF-16 code units a JVM String holds for one character: one unit
   * for a character of the Basic Multilingual Plane, a surrogate pair otherwise.
   */
  function CodeUnits(c: char): (r: seq<int>)
    ensures |r| == if c as int < 0x10000 then 1 else 2
    ensures forall i :: 0 <= i < |r| ==> 0 <= r[i] < 0x10000
    ensures c as int < 0x10000 ==> r[0] == c as int
    ensures |r| == 2 ==> 0xD800 <= r[0] < 0xDC00 <= r[1] < 0xE000
    ensures |r| == 2 ==> 0x10000 + (r[0] - 0xD800) * 0x400 + (r[1] - 0xDC00) == c as int
  {
    if c as int < 0x10000 then [c as int]
    else
      var v := c as int - 0x10000;
      [0xD800 + v / 0x400, 0xDC00 + v % 0x400]
  }

  /** The byte writeBytes emits for one code unit: its low eight bits. */
  function LowByte(unit: int): Byte
  {
    unit % 256
  }

  /** What DataOutputStream.writeBytes emits for one character. */
  function CharBytes(c: char): (r: seq<Byte>)
    ensures |r| == |CodeUnits(c)|
    ensures forall i :: 0 <= i < |r| ==> r[i] == LowByte(CodeUnits(c)[i])
  {
    var u := CodeUnits(c);
    if |u| == 1 then [LowByte(u[0])] else [LowByte(u[0]), LowByte(u[1])]
  }

  /**
   * What DataOutputStream.writeBytes emits for a whole string: one byte per
   * character of the Basic Multilingual Plane, two for any other character.
   */
  function LowBytes(s: string): (r: seq<Byte>)
    ensures |s| <= |r| <= 2 * |s|
  {
    if s == [] then [] else LowBytes(s[..|s| - 1]) + CharBytes(s[|s| - 1])
  }

  /** Characters that fit in one byte, so that writeBytes loses nothing. */
  predicate Latin1(s: string)
  {
    forall i :: 0 <= i < |s| ==> s[i] as int < 256
  }

  /** The inverse of writeBytes on Latin-1 text: every byte is one character. */
  function Latin1Decode(bytes: seq<Byte>): (s: string)
    ensures |s| == |bytes|
    ensures Latin1(s)
    ensures forall i :: 0 <= i < |s| ==> s[i] as int == bytes[i]
  {
    seq(|bytes|, i requires 0 <= i < |bytes| => bytes[i] as char)
  }

  /** writeBytes distributes over concatenation: writing a + b writes a, then b. */
  lemma {:induction false} LowBytesAppend(a: string, b: string)
    ensures LowBytes(a + b) == LowBytes(a) + LowBytes(b)
    decreases |b|
  {
    if b == [] {
      assert a + b == a;
    } else {
      var b' := b[..|b| - 1];
      assert (a + b)[..|a + b| - 1] == a + b';
      assert (a + b)[|a + b| - 1] == b[|b| - 1];
      LowBytesAppend(a, b');
    }
  }

  /** On Latin-1 text writeBytes is the identity on code points. */
  lemma {:induction false} LowBytesLatin1(s: string)
    requires Latin1(s)
    ensures |LowBytes(s)| == |s|
    ensures forall i :: 0 <= i < |s| ==> LowBytes(s)[i] == s[i] as int
    decreases |s|
  {
    if s != [] {
      var s' := s[..|s| - 1];
      assert Latin1(s') by {
        forall i | 0 <= i < |s'| ensures s'[i] as int < 256 {
          assert s'[i] == s[i];
        }
      }
      LowBytesLatin1(s');
    }
  }

  /** Round trip: reading back what writeBytes emitted for Latin-1 text gives the text. */
  lemma Latin1RoundTrip(s: string)
    requires Latin1(s)
    ensures Latin1Decode(LowBytes(s)) == s
  {
    LowBytesLatin1(s);
  }

  // ---------------------------------------------------------------------
  // Decimal text of a Long, as a Kotlin string template renders it.

  predicate IsDigit(c: char)
  {
    '0' <= c <= '9'
  }

  predicate AllDigits(s: string)
  {
    forall i :: 0 <= i < |s| ==> IsDigit(s[i])
  }

  function DigitChar(d: int): (c: char)
    requires 0 <= d < 10
    ensures IsDigit(c) && c as int - '0' as int == d
  {
    ('0' as int + d) as char
  }

  /** The decimal digits of n, most significant first, with no leading zero. */
  function NatToDecimal(n: nat): (r: string)
    ensures |r| >= 1 && AllDigits(r)
    ensures |r| > 1 ==> r[0] != '0'
  {
    if n < 10 then [DigitChar(n)] else NatToDecimal(n / 10) + [DigitChar(n % 10)]
  }

  /** Long.toString: a minus sign for negative values, then the digits of the magnitude. */
  function LongToString(n: int): (r: string)
    ensures |r| >= 1
    ensures n >= 0 <==> IsDigit(r[0])
  {
    if n < 0 then "-" + NatToDecimal(-n) else NatToDecimal(n)
  }

  /** The value of a non-empty string of decimal digits. */
  function DecimalValue(s: string): nat
    requires |s| >= 1 && AllDigits(s)
  {
    var d := s[|s| - 1] as int - '0' as int;
    if |s| == 1 then d else 10 * DecimalValue(s[..|s| - 1]) + d
  }

  /** Reads back the text LongToString produces; None for anything else. */
  function ParseLong(s: string): Option<int>
  {
    if |s| >= 2 && s[0] == '-' && AllDigits(s[1..]) then Some(0 - DecimalValue(s[1..]))
    else if |s| >= 1 && AllDigits(s) then Some(DecimalValue(s))
    else None
  }

  lemma {:induction false} DecimalRoundTrip(n: nat)
    ensures DecimalValue(NatToDecimal(n)) == n
    decreases n
  {
    if n >= 10 {
      var r := NatToDecimal(n);
      assert r[..|r| - 1] == NatToDecimal(n / 10);
      DecimalRoundTrip(n / 10);
    }
  }

  /** Round trip: the decimal text of a Long reads back as that Long. */
  lemma LongToStringRoundTrip(n: int)
    ensures ParseLong(LongToString(n)) == Some(n)
  {
    if n < 0 {
      var r := LongToString(n);
      assert r[1..] == NatToDecimal(-n);
      DecimalRoundTrip(-n);
    } else {
      DecimalRoundTrip(n);
    }
  }

  /** Distinct Longs have distinct decimal text. */
  lemma LongToStringInjective(a: int, b: int)
    requires LongToString(a) == LongToString(b)
    ensures a == b
  {
    LongToStringRoundTrip(a);
    LongToStringRoundTrip(b);
  }

  function Pow10(k: nat): (r: nat)
    ensures r >= 1
  {
    if k == 0 then 1 else 10 * Pow10(k - 1)
  }

  /** A number below 10^k has at most k digits (k >= 1). */
  lemma {:induction false} DecimalLength(n: nat, k: nat)
    requires 1 <= k && n < Pow10(k)
    ensures |NatToDecimal(n)| <= k
    decreases k
  {
    if n >= 10 {
      assert k >= 2;
      DecimalLength(n / 10, k - 1);
    }
  }

  lemma Pow10Nineteen()
    ensures Pow10(19) == 10_000_000_000_000_000_000
  {
    assert Pow10(4) == 10_000;
    assert Pow10(8) == 100_000_000;
    assert Pow10(12) == 1_000_000_000_000;
    assert Pow10(16) == 10_000_000_000_000_000;
  }

  /** The text of a Long is at most 20 characters: a sign and 19 digits. */
  lemma LongToStringLength(n: Long)
    ensures |LongToString(n)| <= 20
  {
    Pow10Nineteen();
    var magnitude: nat := if n < 0 then 0 - n else n;
    DecimalLength(magnitude, 19);
  }
}
