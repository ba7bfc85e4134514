/** What the validator of libs/websocket/_utils.py decides, stated against
    the UTF-8 syntax of RFC 3629, and the public entry `validate_utf8`. */
module Utf8Validation {
  import opened Utf8Table
  import opened Utf8Dfa
  import opened Rfc3629

  /** Reading `w` from `state` without reaching `Reject` means `state` was
      not `Reject` either, and the first step was not to `Reject`. */
  lemma NotRejectedStep(state: int, w: seq<Byte>)
    requires IsState(state) && w != [] && StateAfter(state, w) != Reject
    ensures state != Reject && NextRef(state, w[0]) != Reject
    ensures StateAfter(state, w) == StateAfter(NextRef(state, w[0]), w[1..])
  {
    RejectAbsorbing(w);
    RejectAbsorbing(w[1..]);
  }

  /** Every character of the grammar leads from `Accept` back to `Accept`. */
  lemma AcceptsChar(c: seq<Byte>)
    requires IsUtf8Char(c)
    ensures StateAfter(Accept, c) == Accept
  {
    var q1 := NextRef(Accept, c[0]);
    assert StateAfter(Accept, c) == StateAfter(q1, c[1..]);
    if |c| >= 2 {
      var q2 := NextRef(q1, c[1]);
      assert StateAfter(q1, c[1..]) == StateAfter(q2, c[2..]);
      if |c| >= 3 {
        var q3 := NextRef(q2, c[2]);
        assert StateAfter(q2, c[2..]) == StateAfter(q3, c[3..]);
        if |c| == 4 {
          assert StateAfter(q3, c[3..]) == StateAfter(NextRef(q3, c[3]), c[4..]);
        }
      }
    }
  }

  /** Soundness: every byte sequence in the grammar `UTF8-octets` drives the
      automaton from `Accept` back to `Accept`. */
  lemma {:induction false} Soundness(s: seq<Byte>)
    ensures IsUtf8Octets(s) ==> StateAfter(Accept, s) == Accept
    decreases |s|
  {
    if s != [] && IsUtf8Octets(s) {
      var n :| 1 <= n <= 4 && n <= |s| && IsUtf8Char(s[..n]) && IsUtf8Octets(s[n..]);
      AcceptsChar(s[..n]);
      Soundness(s[n..]);
      assert s == s[..n] + s[n..];
      StateAfterAppend(Accept, s[..n], s[n..]);
    }
  }

  /** An input that leads from `Accept` to `Accept` starts with a character
      of the grammar, after which the automaton is in `Accept` again. */
  lemma FirstChar(s: seq<Byte>) returns (n: nat)
    requires s != [] && StateAfter(Accept, s) == Accept
    ensures 1 <= n <= 4 && n <= |s|
    ensures IsUtf8Char(s[..n]) && StateAfter(Accept, s[n..]) == Accept
  {
    NotRejectedStep(Accept, s);
    var q1 := NextRef(Accept, s[0]);
    if q1 == Accept {
      n := 1;
    } else {
      assert |s| >= 2;
      NotRejectedStep(q1, s[1..]);
      var q2 := NextRef(q1, s[1]);
      assert s[1..][1..] == s[2..];
      if q2 == Accept {
        n := 2;
      } else {
        assert |s| >= 3;
        NotRejectedStep(q2, s[2..]);
        var q3 := NextRef(q2, s[2]);
        assert s[2..][1..] == s[3..];
        if q3 == Accept {
          n := 3;
        } else {
          assert |s| >= 4;
          NotRejectedStep(q3, s[3..]);
          assert s[3..][1..] == s[4..];
          n := 4;
        }
      }
    }
  }

  /** Completeness: an input that leads from `Accept` to `Accept` is in the
      grammar `UTF8-octets`. */
  lemma {:induction false} Completeness(s: seq<Byte>)
    requires StateAfter(Accept, s) == Accept
    ensures IsUtf8Octets(s)
    decreases |s|
  {
    if s != [] {
      var n := FirstChar(s);
      Completeness(s[n..]);
      assert IsUtf8Char(s[..n]) && IsUtf8Octets(s[n..]);
    }
  }

  /** The automaton ends in `Accept` exactly on the inputs in the grammar. */
  lemma AcceptIffUtf8(s: seq<Byte>)
    ensures StateAfter(Accept, s) == Accept <==> IsUtf8Octets(s)
  {
    Soundness(s);
    if StateAfter(Accept, s) == Accept {
      Completeness(s);
    }
  }

  /** Bytes that complete the sequence a pending state has begun. */
  function Completion(state: int): (t: seq<Byte>)
    requires IsState(state) && state != Reject
    ensures |t| <= 3 && StateAfter(state, t) == Accept
  {
    if state == Accept then []
    else if state == Need1 then [0x80]
    else if state == Need2 || state == AfterED then [0x80, 0x80]
    else if state == AfterE0 then [0xA0, 0x80]
    else if state == AfterF0 then [0x90, 0x80, 0x80]
    else [0x80, 0x80, 0x80]
  }

  /** The automaton avoids `Reject` exactly on the inputs that some bytes
      complete to a sequence in the grammar: the prefixes of UTF-8. */
  lemma NotRejectedIffPrefix(s: seq<Byte>)
    ensures StateAfter(Accept, s) != Reject <==> exists t :: IsUtf8Octets(s + t)
  {
    var state := StateAfter(Accept, s);
    if state != Reject {
      var t := Completion(state);
      StateAfterAppend(Accept, s, t);
      Completeness(s + t);
    } else {
      forall t
        ensures !IsUtf8Octets(s + t)
      {
        StateAfterAppend(Accept, s, t);
        RejectAbsorbing(t);
        Soundness(s + t);
      }
    }
  }

  /** Once the automaton rejects a byte, nothing that follows can undo it. */
  lemma RejectedStepRejects(u: seq<Byte>, w: seq<Byte>, v: seq<Byte>)
    requires w != [] && NextRef(StateAfter(Accept, u), w[0]) == Reject
    ensures StateAfter(Accept, u + w + v) == Reject
  {
    assert u + w + v == u + (w + v);
    StateAfterAppend(Accept, u, w + v);
    assert (w + v)[1..] == w[1..] + v;
    RejectAbsorbing(w[1..] + v);
  }

  /** ASCII keeps the automaton in `Accept`. */
  lemma {:induction false} AsciiKeepsAccept(s: seq<Byte>)
    requires forall i :: 0 <= i < |s| ==> s[i] < 0x80
    ensures StateAfter(Accept, s) == Accept
    decreases |s|
  {
    if s != [] {
      AsciiKeepsAccept(s[1..]);
    }
  }

  /** A continuation byte where a character should start is rejected. */
  lemma StrayContinuationRejects(u: seq<Byte>, b: Byte, v: seq<Byte>)
    requires IsUtf8Octets(u) && IsTail(b)
    ensures StateAfter(Accept, u + [b] + v) == Reject
  {
    Soundness(u);
    RejectedStepRejects(u, [b], v);
  }

  /** A character cut short by a byte that is not a continuation byte is
      rejected. */
  lemma InterruptedSequenceRejects(u: seq<Byte>, lead: Byte, b: Byte, v: seq<Byte>)
    requires IsUtf8Octets(u) && 0xC2 <= lead <= 0xF4 && !IsTail(b)
    ensures StateAfter(Accept, u + [lead, b] + v) == Reject
  {
    Soundness(u);
    assert u + [lead, b] + v == (u + [lead]) + [b] + v;
    StateAfterAppend(Accept, u, [lead]);
    RejectedStepRejects(u + [lead], [b], v);
  }

  /** The octets C0, C1 and F5 to FF never appear in UTF-8: they are
      rejected wherever they occur. */
  lemma NeverByteRejects(u: seq<Byte>, b: Byte, v: seq<Byte>)
    requires b == 0xC0 || b == 0xC1 || b >= 0xF5
    ensures StateAfter(Accept, u + [b] + v) == Reject
  {
    RejectedStepRejects(u, [b], v);
  }

  /** A lead byte of a character followed by a second byte the character
      may not have, wherever it occurs, is rejected. */
  lemma BadSecondByteRejects(u: seq<Byte>, lead: Byte, b: Byte, v: seq<Byte>)
    requires !IsTail(lead) && NextRef(NextRef(Accept, lead), b) == Reject
    ensures StateAfter(Accept, u + [lead, b] + v) == Reject
  {
    var q := StateAfter(Accept, u);
    assert u + [lead, b] + v == (u + [lead]) + [b] + v;
    StateAfterAppend(Accept, u, [lead]);
    if q == Accept {
      RejectedStepRejects(u + [lead], [b], v);
    } else {
      RejectedStepRejects(u, [lead], [b] + v);
      assert u + [lead] + ([b] + v) == u + [lead, b] + v;
    }
  }

  /** The specific rejections of section 4 of RFC 3629: overlong three-byte
      forms (E0 80..9F), surrogates (ED A0..BF), overlong four-byte forms
      (F0 80..8F) and values above U+10FFFF (F4 90..BF). */
  lemma Rfc3629Rejections(u: seq<Byte>, b: Byte, v: seq<Byte>)
    ensures 0x80 <= b <= 0x9F ==> StateAfter(Accept, u + [0xE0, b] + v) == Reject
    ensures 0xA0 <= b <= 0xBF ==> StateAfter(Accept, u + [0xED, b] + v) == Reject
    ensures 0x80 <= b <= 0x8F ==> StateAfter(Accept, u + [0xF0, b] + v) == Reject
    ensures 0x90 <= b <= 0xBF ==> StateAfter(Accept, u + [0xF4, b] + v) == Reject
  {
    if 0x80 <= b <= 0x9F {
      BadSecondByteRejects(u, 0xE0, b, v);
    }
    if 0xA0 <= b <= 0xBF {
      BadSecondByteRejects(u, 0xED, b, v);
    }
    if 0x80 <= b <= 0x8F {
      BadSecondByteRejects(u, 0xF0, b, v);
    }
    if 0x90 <= b <= 0xBF {
      BadSecondByteRejects(u, 0xF4, b, v);
    }
  }

  /** A character cut off before its last byte is never rejected, although
      it is not UTF-8: `validate_utf8` returns `True` for it. */
  lemma TruncatedCharAccepted(c: seq<Byte>, k: nat)
    requires IsUtf8Char(c) && 1 <= k < |c|
    ensures StateAfter(Accept, c[..k]) != Reject
    ensures !IsUtf8Octets(c[..k])
  {
    var q1 := NextRef(Accept, c[0]);
    assert StateAfter(Accept, c[..k]) == StateAfter(q1, c[1..k]);
    if k >= 2 {
      var q2 := NextRef(q1, c[1]);
      assert StateAfter(q1, c[1..k]) == StateAfter(q2, c[2..k]);
      if k == 3 {
        assert StateAfter(q2, c[2..k]) == StateAfter(NextRef(q2, c[2]), c[3..k]);
      }
    }
    AcceptIffUtf8(c[..k]);
  }

  /** The example the as-written loop gets wrong: E2 82 is the first two
      bytes of the three-byte encoding of U+20AC; it is not UTF-8, yet the
      automaton never reaches `Reject` on it. */
  lemma TruncatedInputAccepted()
    ensures StateAfter(Accept, [0xE2, 0x82]) == Need1
    ensures !IsUtf8Octets([0xE2, 0x82])
  {
    AcceptIffUtf8([0xE2, 0x82]);
  }

  /** The ASCII text "hello" is UTF-8. */
  lemma HelloIsUtf8()
    ensures IsUtf8Octets([0x68, 0x65, 0x6C, 0x6C, 0x6F])
  {
    AsciiKeepsAccept([0x68, 0x65, 0x6C, 0x6C, 0x6F]);
    Completeness([0x68, 0x65, 0x6C, 0x6C, 0x6F]);
  }

  /** The euro sign E2 82 AC is UTF-8; with a further 80 it is not. */
  lemma EuroSignExamples()
    ensures IsUtf8Octets([0xE2, 0x82, 0xAC])
    ensures !IsUtf8Octets([0xE2, 0x82, 0xAC, 0x80])
  {
    var euro: seq<Byte> := [0xE2, 0x82, 0xAC];
    assert StateAfter(Accept, euro) == Accept;
    Completeness(euro);
    StateAfterAppend(Accept, euro, [0x80]);
    assert StateAfter(Accept, euro + [0x80]) == Reject;
    Soundness(euro + [0x80]);
    assert euro + [0x80] == [0xE2, 0x82, 0xAC, 0x80];
  }

  /** `validate_utf8`: delegates to `_validate_utf8`, so its verdict is the
      loop's, a function of the input alone. It returns `True` for every
      input in the grammar, and, because the loop does not check the final
      state, also for every prefix of one: exactly the inputs that some
      bytes complete to UTF-8. */
  method ValidateUtf8(utfbytes: seq<Byte>) returns (ok: bool)
    ensures ok <==> StateAfter(Accept, utfbytes) != Reject
    ensures ok <==> exists t :: IsUtf8Octets(utfbytes + t)
    ensures IsUtf8Octets(utfbytes) ==> ok
  {
    ok := ValidateUtf8Loop(utfbytes);
    NotRejectedIffPrefix(utfbytes);
    assert utfbytes + [] == utfbytes;
  }

  /** The validator as its docstring describes it (and as Hoehrmann's
      decoder is used): the same loop, but the verdict is whether the final
      state is `Accept`. It returns `True` exactly on UTF-8. */
  method ValidateUtf8Strict(utfbytes: seq<Byte>) returns (ok: bool)
    ensures ok <==> IsUtf8Octets(utfbytes)
  {
    var state, codep := Accept, 0;
    for i := 0 to |utfbytes|
      invariant state == StateAfter(Accept, utfbytes[..i])
    {
      var b := utfbytes[i];
      assert utfbytes[..i + 1] == utfbytes[..i] + [b];
      StateAfterAppend(Accept, utfbytes[..i], [b]);
      assert StateAfter(state, [b]) == StateAfter(NextRef(state, b), []);
      var next := Decode(state, codep, b);
      state, codep := next.0, next.1;
      if state == Reject {
        RejectedPrefixRejects(utfbytes, i + 1);
        AcceptIffUtf8(utfbytes);
        return false;
      }
    }
    assert utfbytes[..|utfbytes|] == utfbytes;
    AcceptIffUtf8(utfbytes);
    return state == Accept;
  }
}
