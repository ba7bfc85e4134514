/** The UTF-8 syntax of RFC 3629, section 4 ("Syntax of UTF-8 Byte
    Sequences"), and the code point a character encodes (section 3). This
    is the reference the validator's table is measured against. */
module Rfc3629 {
  import opened Utf8Table

  /** `UTF8-char`: one well-formed sequence of one to four bytes. */
  predicate IsUtf8Char(c: seq<Byte>) {
    // UTF8-1 = %x00-7F
    (|c| == 1 && c[0] <= 0x7F) ||
    // UTF8-2 = %xC2-DF UTF8-tail
    (|c| == 2 && 0xC2 <= c[0] <= 0xDF && IsTail(c[1])) ||
    // UTF8-3 = %xE0 %xA0-BF UTF8-tail / %xE1-EC 2( UTF8-tail ) /
    //          %xED %x80-9F UTF8-tail / %xEE-EF 2( UTF8-tail )
    (|c| == 3 &&
      ((c[0] == 0xE0 && 0xA0 <= c[1] <= 0xBF) ||
       (0xE1 <= c[0] <= 0xEC && IsTail(c[1])) ||
       (c[0] == 0xED && 0x80 <= c[1] <= 0x9F) ||
       (0xEE <= c[0] <= 0xEF && IsTail(c[1]))) &&
      IsTail(c[2])) ||
    // UTF8-4 = %xF0 %x90-BF 2( UTF8-tail ) / %xF1-F3 3( UTF8-tail ) /
    //          %xF4 %x80-8F 2( UTF8-tail )
    (|c| == 4 &&
      ((c[0] == 0xF0 && 0x90 <= c[1] <= 0xBF) ||
       (0xF1 <= c[0] <= 0xF3 && IsTail(c[1])) ||
       (c[0] == 0xF4 && 0x80 <= c[1] <= 0x8F)) &&
      IsTail(c[2]) && IsTail(c[3]))
  }

  /** `UTF8-octets = *( UTF8-char )`: the input splits into characters. */
  predicate IsUtf8Octets(s: seq<Byte>)
    decreases |s|
  {
    s == [] ||
    exists n :: 1 <= n <= 4 && n <= |s| && IsUtf8Char(s[..n]) && IsUtf8Octets(s[n..])
  }

  /** A Unicode scalar value: a code point that is not a surrogate. */
  predicate IsScalarValue(v: int) {
    0 <= v <= 0x10FFFF && !(0xD800 <= v <= 0xDFFF)
  }

  /** The number of bytes section 3 of RFC 3629 uses for `v`. */
  function EncodedLength(v: int): nat {
    if v < 0x80 then 1 else if v < 0x800 then 2 else if v < 0x10000 then 3 else 4
  }

  /** The code point a character encodes: the payload bits of its leader
      followed by six bits from each continuation byte (section 3). */
  function ScalarValue(c: seq<Byte>): (v: nat)
    requires IsUtf8Char(c)
    ensures IsScalarValue(v) && EncodedLength(v) == |c|
  {
    var b0: int := c[0];
    if |c| == 1 then b0
    else
      var b1: int := c[1];
      if |c| == 2 then (b0 - 0xC0) * 0x40 + (b1 - 0x80)
      else
        var b2: int := c[2];
        if |c| == 3 then ((b0 - 0xE0) * 0x40 + (b1 - 0x80)) * 0x40 + (b2 - 0x80)
        else
          var b3: int := c[3];
          (((b0 - 0xF0) * 0x40 + (b1 - 0x80)) * 0x40 + (b2 - 0x80)) * 0x40 + (b3 - 0x80)
  }

  /** The encoding of a scalar value in its shortest form (section 3). */
  function Encode(v: int): (c: seq<Byte>)
    requires IsScalarValue(v)
    ensures |c| == EncodedLength(v)
  {
    if v < 0x80 then [v]
    else if v < 0x800 then [0xC0 + v / 0x40, 0x80 + v % 0x40]
    else if v < 0x10000 then [0xE0 + v / 0x1000, 0x80 + v / 0x40 % 0x40, 0x80 + v % 0x40]
    else [0xF0 + v / 0x40000, 0x80 + v / 0x1000 % 0x40, 0x80 + v / 0x40 % 0x40, 0x80 + v % 0x40]
  }

  /** Splitting off the low six bits of `q * 64 + r`. */
  lemma SixBits(q: int, r: int)
    requires 0 <= r < 0x40
    ensures (q * 0x40 + r) / 0x40 == q && (q * 0x40 + r) % 0x40 == r
  {
  }

  /** The grammar's characters are exactly the shortest-form encodings of
      the scalar values: encoding a scalar value gives a character that
      decodes back to it ... */
  lemma EncodeRoundTrip(v: int)
    requires IsScalarValue(v)
    ensures IsUtf8Char(Encode(v)) && ScalarValue(Encode(v)) == v
  {
    var q1, r0 := v / 0x40, v % 0x40;
    assert v == q1 * 0x40 + r0;
    if v >= 0x800 {
      var q2, r1 := q1 / 0x40, q1 % 0x40;
      assert q1 == q2 * 0x40 + r1 && v / 0x1000 == q2;
      if v >= 0x10000 {
        EncodeFourBytes(v, q2 / 0x40, q2 % 0x40, r1, r0);
      }
    }
  }

  /** The four-byte case: `v` is `((q3 * 64 + r2) * 64 + r1) * 64 + r0`. */
  lemma EncodeFourBytes(v: int, q3: int, r2: int, r1: int, r0: int)
    requires IsScalarValue(v) && v >= 0x10000
    requires 0 <= r2 < 0x40 && 0 <= r1 < 0x40 && 0 <= r0 < 0x40
    requires v == ((q3 * 0x40 + r2) * 0x40 + r1) * 0x40 + r0
    ensures IsUtf8Char(Encode(v)) && ScalarValue(Encode(v)) == v
  {
    assert v / 0x40 == (q3 * 0x40 + r2) * 0x40 + r1 && v % 0x40 == r0;
    assert v / 0x1000 == q3 * 0x40 + r2 && v / 0x40000 == q3;
    assert 0 <= q3 <= 4;
    assert q3 == 0 ==> r2 >= 0x10;
    assert q3 == 4 ==> r2 < 0x10;
    var c: seq<Byte> := [0xF0 + q3, 0x80 + r2, 0x80 + r1, 0x80 + r0];
    assert Encode(v) == c;
    assert IsUtf8Char(c);
  }

  lemma TwoByteRoundTrip(c: seq<Byte>)
    requires |c| == 2 && IsUtf8Char(c)
    ensures Encode(ScalarValue(c)) == c
  {
    SixBits(c[0] as int - 0xC0, c[1] - 0x80);
  }

  lemma ThreeByteRoundTrip(c: seq<Byte>)
    requires |c| == 3 && IsUtf8Char(c)
    ensures Encode(ScalarValue(c)) == c
  {
    var v := ScalarValue(c);
    var q: int := (c[0] as int - 0xE0) * 0x40 + (c[1] as int - 0x80);
    SixBits(q, c[2] as int - 0x80);
    SixBits(c[0] as int - 0xE0, c[1] - 0x80);
    assert v / 0x1000 == q / 0x40;
  }

  lemma FourByteRoundTrip(c: seq<Byte>)
    requires |c| == 4 && IsUtf8Char(c)
    ensures Encode(ScalarValue(c)) == c
  {
    var v := ScalarValue(c);
    var q1: int := (c[0] as int - 0xF0) * 0x40 + (c[1] as int - 0x80);
    var q2: int := q1 * 0x40 + (c[2] as int - 0x80);
    SixBits(q2, c[3] as int - 0x80);
    SixBits(q1, c[2] as int - 0x80);
    SixBits(c[0] as int - 0xF0, c[1] - 0x80);
    assert v / 0x1000 == q2 / 0x40;
    assert v / 0x40000 == q1 / 0x40;
  }

  /** ... and every character is the encoding of the value it decodes to. */
  lemma ScalarValueRoundTrip(c: seq<Byte>)
    requires IsUtf8Char(c)
    ensures Encode(ScalarValue(c)) == c
  {
    if |c| == 2 {
      TwoByteRoundTrip(c);
    } else if |c| == 3 {
      ThreeByteRoundTrip(c);
    } else if |c| == 4 {
      FourByteRoundTrip(c);
    }
  }
}
