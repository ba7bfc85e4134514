/** The second half of `_decode`'s result: the code point it accumulates.
    `_validate_utf8` discards it, but `_decode` computes it, and after each
    complete character it holds the character's scalar value (section 3 of
    RFC 3629). */
module Utf8Codepoint {
  import opened Utf8Table
  import opened Utf8Dfa
  import opened Rfc3629
  import opened Utf8Validation

  // Arithmetic facts about `&`, `|` and `>>` on the values `_decode` uses.

  /** Division with remainder is unique. */
  lemma DivModUnique(x: int, d: int, q: int, r: int)
    requires d > 0 && 0 <= r < d && x == d * q + r
    ensures x / d == q && x % d == r
  {
    var t := q - x / d;
    assert d * t == x % d - r;
    MulBound(d, t);
  }

  lemma MulBound(d: int, t: int)
    requires d > 0
    ensures t >= 1 ==> d * t >= d
    ensures t <= -1 ==> d * t <= -d
  {
  }

  /** Halving and taking the remainder modulo a power of two commute. */
  lemma HalfModulo(x: nat, p: nat)
    requires p >= 1
    ensures x % (2 * p) == 2 * ((x / 2) % p) + x % 2
  {
    var a, r := x / 2, x % 2;
    var q, s := a / p, a % p;
    assert x == (2 * p) * q + (2 * s + r);
    DivModUnique(x, 2 * p, q, 2 * s + r);
  }

  /** `&` is symmetric. */
  lemma {:induction false} BitAndSymmetric(a: nat, b: nat)
    ensures BitAnd(a, b) == BitAnd(b, a)
    decreases a + b
  {
    if a != 0 && b != 0 {
      BitAndSymmetric(a / 2, b / 2);
    }
  }

  /** The low `k` bits of `x`, bit by bit. */
  function LowBits(x: nat, k: nat): nat {
    if k == 0 then 0 else 2 * LowBits(x / 2, k - 1) + x % 2
  }

  /** `x & (2^k - 1)` keeps the low `k` bits of `x`. */
  lemma {:induction false} BitAndLowBits(x: nat, k: nat)
    ensures BitAnd(x, Pow2(k) - 1) == LowBits(x, k)
    decreases k
  {
    if k > 0 {
      var p := Pow2(k - 1);
      assert Pow2(k) - 1 == 2 * p - 1;
      assert (2 * p - 1) / 2 == p - 1 && (2 * p - 1) % 2 == 1;
      BitAndLowBits(x / 2, k - 1);
    }
  }

  /** The low `k` bits of `x` are `x mod 2^k`. */
  lemma {:induction false} LowBitsMod(x: nat, k: nat)
    ensures LowBits(x, k) == x % Pow2(k)
    decreases k
  {
    if k > 0 {
      LowBitsMod(x / 2, k - 1);
      HalfModulo(x, Pow2(k - 1));
    }
  }

  /** `a | (h << k)` is a sum when `a` has no bit at or above `k`. */
  lemma {:induction false} BitOrDisjoint(a: nat, h: nat, k: nat)
    requires a < Pow2(k)
    ensures BitOr(a, ShiftLeft(h, k)) == a + ShiftLeft(h, k)
    decreases k
  {
    if k > 0 {
      BitOrDisjoint(a / 2, h, k - 1);
    }
  }

  /** `x << 6` is `x * 64`. */
  lemma ShiftLeftSix(x: nat)
    ensures ShiftLeft(x, 6) == x * 0x40
  {
    assert ShiftLeft(x, 1) == 2 * x;
    assert ShiftLeft(x, 2) == 2 * ShiftLeft(x, 1);
    assert ShiftLeft(x, 3) == 2 * ShiftLeft(x, 2);
    assert ShiftLeft(x, 4) == 2 * ShiftLeft(x, 3);
    assert ShiftLeft(x, 5) == 2 * ShiftLeft(x, 4);
  }

  /** `0xff >> tp` for the classes of the bytes that may start a
      character: the low `8 - tp` bits for classes up to 6, none for the
      classes 10 and 11 of E0 and F0. */
  lemma LeaderMask()
    ensures ShiftRight(0xff, 0) == Pow2(8) - 1
    ensures ShiftRight(0xff, 2) == Pow2(6) - 1
    ensures ShiftRight(0xff, 3) == Pow2(5) - 1
    ensures ShiftRight(0xff, 4) == Pow2(4) - 1
    ensures ShiftRight(0xff, 5) == Pow2(3) - 1
    ensures ShiftRight(0xff, 6) == Pow2(2) - 1
    ensures ShiftRight(0xff, 10) == 0 && ShiftRight(0xff, 11) == 0
  {
  }

  /** `(2^k - 1) & ch` keeps the low `k` bits of `ch`. */
  lemma MaskLowBits(k: nat, ch: Byte)
    ensures BitAnd(Pow2(k) - 1, ch) == ch % Pow2(k)
  {
    BitAndSymmetric(Pow2(k) - 1, ch);
    BitAndLowBits(ch, k);
    LowBitsMod(ch, k);
  }

  // The code point after one step of `_decode`.

  /** After a leader, `_decode` appends the six payload bits of the byte:
      `codep' = (ch & 0x3f) | (codep << 6)`. */
  lemma ContinuationPayload(state: int, codep: nat, ch: Byte)
    requires IsState(state) && state != Accept
    ensures Decode(state, codep, ch).1 == codep * 0x40 + ch % 0x40
  {
    assert Pow2(6) == 0x40;
    BitAndLowBits(ch, 6);
    LowBitsMod(ch, 6);
    BitOrDisjoint(ch % 0x40, codep, 6);
    ShiftLeftSix(codep);
  }

  /** A continuation byte carries its low six bits as payload. */
  lemma TailPayload(b: Byte)
    requires IsTail(b)
    ensures b % 0x40 == b - 0x80
  {
    DivModUnique(b, 0x40, 2, b - 0x80);
  }

  lemma AsciiLeaderBits(ch: Byte)
    requires ch < 0x80
    ensures BitAnd(ShiftRight(0xff, 0), ch) == ch - 0
  {
    LeaderMask();
    MaskLowBits(8, ch);
    assert Pow2(8) == 256;
    DivModUnique(ch, 256, 0, ch - 0);
  }

  lemma TwoByteLeaderBits(ch: Byte)
    requires 0xC2 <= ch <= 0xDF
    ensures BitAnd(ShiftRight(0xff, 2), ch) == ch - 0xC0
  {
    LeaderMask();
    MaskLowBits(6, ch);
    assert Pow2(6) == 64;
    DivModUnique(ch, 64, 3, ch - 0xC0);
  }

  lemma ThreeByteLeaderBits(ch: Byte)
    requires 0xE1 <= ch <= 0xEF
    ensures BitAnd(ShiftRight(0xff, 3), ch) == ch - 0xE0
  {
    LeaderMask();
    MaskLowBits(5, ch);
    assert Pow2(5) == 32;
    DivModUnique(ch, 32, 7, ch - 0xE0);
  }

  lemma EdLeaderBits(ch: Byte)
    requires ch == 0xED
    ensures BitAnd(ShiftRight(0xff, 4), ch) == ch - 0xE0
  {
    LeaderMask();
    MaskLowBits(4, ch);
    assert Pow2(4) == 16;
    DivModUnique(ch, 16, 14, ch - 0xE0);
  }

  lemma F4LeaderBits(ch: Byte)
    requires ch == 0xF4
    ensures BitAnd(ShiftRight(0xff, 5), ch) == ch - 0xF0
  {
    LeaderMask();
    MaskLowBits(3, ch);
    assert Pow2(3) == 8;
    DivModUnique(ch, 8, 30, ch - 0xF0);
  }

  lemma FourByteLeaderBits(ch: Byte)
    requires 0xF1 <= ch <= 0xF3
    ensures BitAnd(ShiftRight(0xff, 6), ch) == ch - 0xF0
  {
    LeaderMask();
    MaskLowBits(2, ch);
    assert Pow2(2) == 4;
    DivModUnique(ch, 4, 60, ch - 0xF0);
  }

  /** The leader of a character leaves its payload bits in `codep`. */
  lemma LeaderPayload(codep: nat, ch: Byte)
    ensures ch < 0x80 ==> Decode(Accept, codep, ch).1 == ch
    ensures 0xC2 <= ch <= 0xDF ==> Decode(Accept, codep, ch).1 == ch - 0xC0
    ensures 0xE0 <= ch <= 0xEF ==> Decode(Accept, codep, ch).1 == ch - 0xE0
    ensures 0xF0 <= ch <= 0xF4 ==> Decode(Accept, codep, ch).1 == ch - 0xF0
  {
    if ch < 0x80 {
      ClassPartAgrees(ch);
      AsciiLeaderBits(ch);
    } else if 0xC2 <= ch <= 0xDF {
      ClassPartAgrees(ch);
      TwoByteLeaderBits(ch);
    } else if ch == 0xE0 || ch == 0xF0 {
      ClassPartAgrees(ch);
      LeaderMask();
    } else if ch == 0xED {
      ClassPartAgrees(ch);
      EdLeaderBits(ch);
    } else if 0xE1 <= ch <= 0xEF {
      ClassPartAgrees(ch);
      ThreeByteLeaderBits(ch);
    } else if ch == 0xF4 {
      ClassPartAgrees(ch);
      F4LeaderBits(ch);
    } else if 0xF1 <= ch <= 0xF3 {
      ClassPartAgrees(ch);
      FourByteLeaderBits(ch);
    }
  }

  // The code point after a whole character.

  /** One step of `Run`. */
  lemma RunStep(state: int, codep: nat, w: seq<Byte>)
    requires IsState(state) && w != []
    ensures Run(state, codep, w) == Run(NextRef(state, w[0]), Decode(state, codep, w[0]).1, w[1..])
  {
  }

  /** A continuation byte after a leader appends its six payload bits. */
  lemma ContinuationStep(state: int, codep: nat, b: Byte)
    requires IsState(state) && state != Accept && IsTail(b)
    ensures Decode(state, codep, b).1 == codep * 0x40 + (b as int - 0x80)
  {
    ContinuationPayload(state, codep, b);
    TailPayload(b);
  }

  /** The number of continuation bytes a state still expects. */
  function Pending(state: int): nat {
    if state == Need1 then 1
    else if state == Need2 || state == AfterE0 || state == AfterED then 2
    else if state == AfterF0 || state == Need3 || state == AfterF4 then 3
    else 0
  }

  /** A byte that does not reject a pending state is a continuation byte,
      and one fewer byte is then pending. */
  lemma PendingStep(state: int, b: Byte)
    requires IsState(state) && Pending(state) > 0 && NextRef(state, b) != Reject
    ensures IsTail(b) && Pending(NextRef(state, b)) == Pending(state) - 1
    ensures NextRef(state, b) == Accept <==> Pending(state) == 1
  {
  }

  /** The code point after appending the payload bits of the continuation
      bytes `w` to `codep`. */
  function Accumulate(codep: int, w: seq<Byte>): int
    decreases |w|
  {
    if w == [] then codep else Accumulate(codep * 0x40 + (w[0] as int - 0x80), w[1..])
  }

  /** Completing a pending character appends the payload of every
      continuation byte and ends in `Accept`. */
  lemma {:induction false} RunPending(state: int, codep: nat, w: seq<Byte>)
    requires IsState(state) && Pending(state) == |w| > 0
    requires StateAfter(state, w) == Accept
    ensures Run(state, codep, w) == (Accept, Accumulate(codep, w))
    decreases |w|
  {
    RunStep(state, codep, w);
    RejectAbsorbing(w[1..]);
    var next := NextRef(state, w[0]);
    PendingStep(state, w[0]);
    ContinuationStep(state, codep, w[0]);
    var codep' := codep * 0x40 + (w[0] as int - 0x80);
    if |w| > 1 {
      RunPending(next, codep', w[1..]);
    }
  }

  /** The code point after one character is its leader's payload with
      the payload of each continuation byte appended. */
  lemma RunChar(c: seq<Byte>, codep: nat)
    requires IsUtf8Char(c)
    ensures Run(Accept, codep, c) == (Accept, Accumulate(Decode(Accept, codep, c[0]).1, c[1..]))
  {
    RunStep(Accept, codep, c);
    if |c| > 1 {
      CharLeaderPending(c);
      RunPending(NextRef(Accept, c[0]), Decode(Accept, codep, c[0]).1, c[1..]);
    }
  }

  /** After the leader of a multi-byte character, the rest of the character
      is pending and completes it. */
  lemma CharLeaderPending(c: seq<Byte>)
    requires IsUtf8Char(c) && |c| > 1
    ensures Pending(NextRef(Accept, c[0])) == |c| - 1
    ensures StateAfter(NextRef(Accept, c[0]), c[1..]) == Accept
  {
    AcceptsChar(c);
  }

  /** Appending the continuation payloads to the leader's payload gives
      the scalar value of section 3 of RFC 3629. */
  lemma AccumulateScalarValue(c: seq<Byte>, lead: int)
    requires IsUtf8Char(c)
    requires lead == c[0] as int - (if |c| == 1 then 0 else if |c| == 2 then 0xC0 else if |c| == 3 then 0xE0 else 0xF0)
    ensures Accumulate(lead, c[1..]) == ScalarValue(c)
  {
    if |c| > 1 {
      var a1 := lead * 0x40 + (c[1] as int - 0x80);
      assert c[1..][1..] == c[2..];
      assert Accumulate(lead, c[1..]) == Accumulate(a1, c[2..]);
      if |c| > 2 {
        var a2 := a1 * 0x40 + (c[2] as int - 0x80);
        assert c[2..][1..] == c[3..];
        assert Accumulate(a1, c[2..]) == Accumulate(a2, c[3..]);
        if |c| > 3 {
          var a3 := a2 * 0x40 + (c[3] as int - 0x80);
          assert c[3..][1..] == c[4..];
          assert Accumulate(a2, c[3..]) == Accumulate(a3, c[4..]);
        }
      }
    }
  }

  /** Decoding one character from `Accept` returns to `Accept` with the
      character's scalar value in `codep`, whatever `codep` held before. */
  lemma CharDecodesToScalarValue(c: seq<Byte>, codep: nat)
    requires IsUtf8Char(c)
    ensures Run(Accept, codep, c) == (Accept, ScalarValue(c))
  {
    LeaderPayload(codep, c[0]);
    RunChar(c, codep);
    AccumulateScalarValue(c, Decode(Accept, codep, c[0]).1);
  }

  /** Decoding the encoding of a scalar value yields that value. */
  lemma DecodesEncoding(v: int, codep: nat)
    requires IsScalarValue(v)
    ensures Run(Accept, codep, Encode(v)) == (Accept, v)
  {
    EncodeRoundTrip(v);
    CharDecodesToScalarValue(Encode(v), codep);
  }

  /** After any UTF-8 input `u`, decoding one more character `c` leaves
      `Accept` and the scalar value of `c`: `codep` holds the value of each
      character as soon as that character is complete. */
  lemma CodepointAfterEachChar(u: seq<Byte>, c: seq<Byte>, codep: nat)
    requires IsUtf8Octets(u) && IsUtf8Char(c)
    ensures Run(Accept, codep, u + c) == (Accept, ScalarValue(c))
  {
    Soundness(u);
    RunFollowsReference(Accept, codep, u);
    RunAppend(Accept, codep, u, c);
    CharDecodesToScalarValue(c, Run(Accept, codep, u).1);
  }
}
