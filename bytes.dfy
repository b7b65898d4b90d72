/** The usual optional value, standing for Python's `None`. */
module Wrappers {
  datatype Option<+T> = None | Some(value: T)
}

/**
 * Byte strings and the three text-to-bytes conversions the server relies on:
 * Latin-1 (how http.server encodes header lines), UTF-8 (how the page is
 * encoded) and Python's `str()` of a non-negative int (how a Content-Length
 * value is formatted), together with the decimal parser that inverts it.
 */
module Bytes {

  newtype byte = x: int | 0 <= x < 256

  type Bytes = seq<byte>

  /** `b"".join(cs)`. */
  function Join(cs: seq<Bytes>): Bytes
  {
    if cs == [] then [] else Join(cs[..|cs| - 1]) + cs[|cs| - 1]
  }

  lemma {:induction false} JoinAppend(a: seq<Bytes>, b: seq<Bytes>)
    ensures Join(a + b) == Join(a) + Join(b)
    decreases |b|
  {
    if b == [] {
      assert a + b == a;
    } else {
      var b' := b[..|b| - 1];
      assert (a + b)[..|a + b| - 1] == a + b';
      JoinAppend(a, b');
    }
  }

  /** Join(cs) starts with the first chunk, followed by the join of the rest. */
  lemma JoinFront(cs: seq<Bytes>)
    requires cs != []
    ensures Join(cs) == cs[0] + Join(cs[1..])
  {
    assert cs == [cs[0]] + cs[1..];
    JoinAppend([cs[0]], cs[1..]);
    assert Join([cs[0]]) == Join([]) + cs[0];
  }

  // ---------------------------------------------------------------- Latin-1

  /**
   * `s.encode("latin-1")`: each character up to U+00FF becomes the byte of
   * the same value. The strict codec's error for a higher character is not
   * modelled (only its low byte is kept): every header line the server sends
   * is ASCII.
   */
  function Latin1(s: string): (r: Bytes)
    ensures |r| == |s|
    ensures forall i :: 0 <= i < |s| && s[i] as int < 256 ==> r[i] as int == s[i] as int
  {
    seq(|s|, i requires 0 <= i < |s| => (s[i] as int % 256) as byte)
  }

  lemma Latin1Append(a: string, b: string)
    ensures Latin1(a + b) == Latin1(a) + Latin1(b)
  {
    assert forall i :: 0 <= i < |a + b| ==> (a + b)[i] == if i < |a| then a[i] else b[i - |a|];
  }

  // ---------------------------------------------------------------- UTF-8

  /** The UTF-8 encoding of one Unicode scalar value. */
  function Utf8Char(c: char): (r: Bytes)
    ensures 1 <= |r| <= 4
    ensures |r| == 1 <==> c as int < 0x80
    ensures |r| == 1 ==> r[0] as int == c as int
  {
    var v := c as int;
    if v < 0x80 then [v as byte]
    else if v < 0x800 then [(0xC0 + v / 0x40) as byte, (0x80 + v % 0x40) as byte]
    else if v < 0x1_0000 then
      [(0xE0 + v / 0x1000) as byte, (0x80 + (v / 0x40) % 0x40) as byte, (0x80 + v % 0x40) as byte]
    else
      [(0xF0 + v / 0x4_0000) as byte, (0x80 + (v / 0x1000) % 0x40) as byte,
       (0x80 + (v / 0x40) % 0x40) as byte, (0x80 + v % 0x40) as byte]
  }

  /** `s.encode("utf-8")`: at least one byte per character, exactly one for ASCII. */
  function Utf8(s: string): (r: Bytes)
    ensures |r| >= |s|
    ensures (forall i :: 0 <= i < |s| ==> s[i] as int < 0x80) ==> |r| == |s|
  {
    if s == [] then [] else Utf8Char(s[0]) + Utf8(s[1..])
  }

  lemma {:induction false} Utf8OfAscii(s: string)
    requires forall i :: 0 <= i < |s| ==> s[i] as int < 0x80
    ensures Utf8(s) == Latin1(s)
  {
    if s != [] {
      Utf8OfAscii(s[1..]);
      assert s == [s[0]] + s[1..];
      Latin1Append([s[0]], s[1..]);
    }
  }

  // ---------------------------------------------------------------- decimal

  predicate IsDigit(b: byte)
  {
    '0' as int <= b as int <= '9' as int
  }

  predicate IsDigitChar(c: char)
  {
    '0' <= c <= '9'
  }

  function DigitChar(d: nat): (c: char)
    requires d < 10
    ensures IsDigitChar(c) && c as int - '0' as int == d
  {
    ('0' as int + d) as char
  }

  /**
   * Python's `str(n)` for a non-negative int: one or more digits, and no
   * leading zero unless the number is zero itself.
   */
  function DecimalString(n: nat): (s: string)
    ensures |s| >= 1
    ensures forall i :: 0 <= i < |s| ==> IsDigitChar(s[i])
    ensures s[0] == '0' ==> n == 0 && |s| == 1
    decreases n
  {
    if n < 10 then [DigitChar(n)] else DecimalString(n / 10) + [DigitChar(n % 10)]
  }

  /** The ASCII bytes of `str(n)`. */
  function DecimalBytes(n: nat): (r: Bytes)
    ensures |r| >= 1
  {
    Latin1(DecimalString(n))
  }

  /** A digit string a parser should accept: non-empty and without a redundant leading zero. */
  predicate IsCanonicalDecimal(d: Bytes)
  {
    && |d| >= 1
    && (forall i :: 0 <= i < |d| ==> IsDigit(d[i]))
    && (d[0] == '0' as int as byte ==> |d| == 1)
  }

  /** The number a non-empty run of ASCII digits spells, most significant first. */
  function DecimalValue(d: Bytes): nat
    requires forall i :: 0 <= i < |d| ==> IsDigit(d[i])
  {
    if d == [] then 0
    else
      assert IsDigit(d[|d| - 1]);
      DecimalValue(d[..|d| - 1]) * 10 + (d[|d| - 1] as int - '0' as int)
  }

  /** Parsing the bytes of `str(n)` gives back n, and those bytes are canonical. */
  lemma {:induction false} DecimalRoundTrip(n: nat)
    ensures IsCanonicalDecimal(DecimalBytes(n))
    ensures DecimalValue(DecimalBytes(n)) == n
    decreases n
  {
    var d := DecimalBytes(n);
    if n >= 10 {
      DecimalRoundTrip(n / 10);
      Latin1Append(DecimalString(n / 10), [DigitChar(n % 10)]);
      assert d[..|d| - 1] == DecimalBytes(n / 10);
    }
  }

  lemma {:induction false} CanonicalDecimalPositive(d: Bytes)
    requires IsCanonicalDecimal(d) && d[0] != '0' as int as byte
    ensures DecimalValue(d) >= 1
    decreases |d|
  {
    if |d| > 1 {
      CanonicalDecimalPositive(d[..|d| - 1]);
    }
  }

  /** Every canonical digit string is `str()` of the number it spells. */
  lemma {:induction false} DecimalCanonical(d: Bytes)
    requires IsCanonicalDecimal(d)
    ensures DecimalBytes(DecimalValue(d)) == d
    decreases |d|
  {
    var v := DecimalValue(d);
    if |d| == 1 {
      assert d[..0] == [] && IsDigit(d[0]);
    } else {
      var d' := d[..|d| - 1];
      CanonicalDecimalPositive(d');
      DecimalCanonical(d');
      assert v / 10 == DecimalValue(d') && v % 10 == d[|d| - 1] as int - '0' as int;
      Latin1Append(DecimalString(v / 10), [DigitChar(v % 10)]);
      assert d == d' + [d[|d| - 1]];
    }
  }
}
