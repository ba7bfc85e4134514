/** One step of the validator (`_decode`) and the loop that folds it over
    the input (`_validate_utf8`), from libs/websocket/_utils.py. */
module Utf8Dfa {
  import opened Utf8Table

  // Python's `&`, `|` and `>>` on the non-negative integers that occur here.

  function Pow2(k: nat): (r: nat)
    ensures r >= 1
  {
    if k == 0 then 1 else 2 * Pow2(k - 1)
  }

  /** `a & b`, bit by bit from the least significant bit. */
  function BitAnd(a: nat, b: nat): (r: nat)
    ensures r <= a && r <= b
    decreases a
  {
    if a == 0 || b == 0 then 0
    else 2 * BitAnd(a / 2, b / 2) + (if a % 2 == 1 && b % 2 == 1 then 1 else 0)
  }

  /** `a | b`, bit by bit from the least significant bit. */
  function BitOr(a: nat, b: nat): (r: nat)
    ensures a <= r && b <= r && r <= a + b
    decreases a
  {
    if a == 0 then b
    else if b == 0 then a
    else 2 * BitOr(a / 2, b / 2) + (if a % 2 == 1 || b % 2 == 1 then 1 else 0)
  }

  /** `x >> k`: `k` halvings, each dropping the lowest bit. */
  function ShiftRight(x: nat, k: nat): nat {
    if k == 0 then x else ShiftRight(x / 2, k - 1)
  }

  /** `x << k`: `k` doublings. */
  function ShiftLeft(x: nat, k: nat): nat {
    if k == 0 then x else 2 * ShiftLeft(x, k - 1)
  }

  /** `_decode(state, codep, ch)`: look up the class `tp` of `ch`, fold the
      byte into the code point (its low six bits after a leader, the bits
      that `0xff >> tp` leaves of a leader), and look up the next state at
      `256 + state + tp`. The next state is the one the automaton `NextRef`
      prescribes, whatever `codep` is; `Reject` is never left. */
  function Decode(state: int, codep: nat, ch: Byte): (r: (int, nat))
    requires IsState(state)
    ensures r.0 == NextRef(state, ch)
    ensures IsState(r.0)
    ensures state == Reject ==> r.0 == Reject
  {
    TableLookupAgrees(state, ch);
    var tp := Utf8d[ch];
    var codep' :=
      if state != Accept then BitOr(BitAnd(ch, 0x3f), ShiftLeft(codep, 6))
      else BitAnd(ShiftRight(0xff, tp), ch);
    (Utf8d[256 + state + tp], codep')
  }

  /** The pair `(state, codep)` after `Decode` has been applied to every byte
      of `w` in order: the loop of `_validate_utf8` without its early exit. */
  function Run(state: int, codep: nat, w: seq<Byte>): (r: (int, nat))
    requires IsState(state)
    ensures IsState(r.0)
    decreases |w|
  {
    if w == [] then (state, codep)
    else
      var next := Decode(state, codep, w[0]);
      Run(next.0, next.1, w[1..])
  }

  /** The state the automaton `NextRef` reaches from `state` on `w`. */
  function StateAfter(state: int, w: seq<Byte>): (r: int)
    requires IsState(state)
    ensures IsState(r)
    decreases |w|
  {
    if w == [] then state else StateAfter(NextRef(state, w[0]), w[1..])
  }

  /** The next state computed by `_decode` does not depend on `codep`. */
  lemma DecodeStateIgnoresCodepoint(state: int, codep1: nat, codep2: nat, ch: Byte)
    requires IsState(state)
    ensures Decode(state, codep1, ch).0 == Decode(state, codep2, ch).0
  {
  }

  /** The states of `Run` are those of the automaton, whatever the code
      point is: the code point never influences the verdict. */
  lemma {:induction false} RunFollowsReference(state: int, codep: nat, w: seq<Byte>)
    requires IsState(state)
    ensures Run(state, codep, w).0 == StateAfter(state, w)
    decreases |w|
  {
    if w != [] {
      var next := Decode(state, codep, w[0]);
      RunFollowsReference(next.0, next.1, w[1..]);
    }
  }

  /** Feeding one more byte is one more `Decode`. */
  lemma {:induction false} RunSnoc(state: int, codep: nat, w: seq<Byte>, b: Byte)
    requires IsState(state)
    ensures Run(state, codep, w + [b])
         == Decode(Run(state, codep, w).0, Run(state, codep, w).1, b)
    decreases |w|
  {
    if w == [] {
      assert w + [b] == [b];
    } else {
      var next := Decode(state, codep, w[0]);
      assert (w + [b])[1..] == w[1..] + [b];
      RunSnoc(next.0, next.1, w[1..], b);
    }
  }

  /** Decoding `u + v` is decoding `u`, then decoding `v` from where `u`
      left the state and the code point. */
  lemma {:induction false} RunAppend(state: int, codep: nat, u: seq<Byte>, v: seq<Byte>)
    requires IsState(state)
    ensures Run(state, codep, u + v) == Run(Run(state, codep, u).0, Run(state, codep, u).1, v)
    decreases |u|
  {
    if u == [] {
      assert u + v == v;
    } else {
      var next := Decode(state, codep, u[0]);
      assert (u + v)[1..] == u[1..] + v;
      RunAppend(next.0, next.1, u[1..], v);
    }
  }

  /** Running over `u + v` is running over `u`, then over `v`. */
  lemma {:induction false} StateAfterAppend(state: int, u: seq<Byte>, v: seq<Byte>)
    requires IsState(state)
    ensures StateAfter(state, u + v) == StateAfter(StateAfter(state, u), v)
    decreases |u|
  {
    if u == [] {
      assert u + v == v;
    } else {
      assert (u + v)[1..] == u[1..] + v;
      StateAfterAppend(NextRef(state, u[0]), u[1..], v);
    }
  }

  /** `_UTF8_REJECT` is absorbing: once there, every later byte keeps it. */
  lemma {:induction false} RejectAbsorbing(w: seq<Byte>)
    ensures StateAfter(Reject, w) == Reject
    decreases |w|
  {
    if w != [] {
      RejectAbsorbing(w[1..]);
    }
  }

  /** A prefix that reaches `Reject` makes the whole input reach it. */
  lemma RejectedPrefixRejects(w: seq<Byte>, k: nat)
    requires k <= |w| && StateAfter(Accept, w[..k]) == Reject
    ensures StateAfter(Accept, w) == Reject
  {
    assert w == w[..k] + w[k..];
    StateAfterAppend(Accept, w[..k], w[k..]);
    RejectAbsorbing(w[k..]);
  }

  /** The loop's step: the prefix one byte longer is decoded by one more
      `Decode`, and its state is the automaton's. */
  lemma RunPrefixStep(w: seq<Byte>, i: nat)
    requires i < |w|
    ensures Run(Accept, 0, w[..i + 1]) == Decode(Run(Accept, 0, w[..i]).0, Run(Accept, 0, w[..i]).1, w[i])
    ensures Run(Accept, 0, w[..i + 1]).0 == StateAfter(Accept, w[..i + 1])
  {
    assert w[..i + 1] == w[..i] + [w[i]];
    RunSnoc(Accept, 0, w[..i], w[i]);
    RunFollowsReference(Accept, 0, w[..i + 1]);
  }

  /** `_validate_utf8` without `wsaccel`: decode byte by byte and return
      `False` as soon as the state is `_UTF8_REJECT`; after the loop return
      `True`, whatever the final state. It returns `False` exactly when some
      prefix of the input drives the automaton from `Accept` to `Reject`,
      which happens exactly when the whole input does. */
  method ValidateUtf8Loop(utfbytes: seq<Byte>) returns (ok: bool)
    ensures ok <==> forall k :: 0 <= k <= |utfbytes| ==> StateAfter(Accept, utfbytes[..k]) != Reject
    ensures ok <==> StateAfter(Accept, utfbytes) != Reject
  {
    var state, codep := Accept, 0;
    for i := 0 to |utfbytes|
      invariant state == Run(Accept, 0, utfbytes[..i]).0
      invariant codep == Run(Accept, 0, utfbytes[..i]).1
      invariant state == StateAfter(Accept, utfbytes[..i])
      invariant forall k :: 0 <= k <= i ==> StateAfter(Accept, utfbytes[..k]) != Reject
    {
      var b := utfbytes[i];
      RunPrefixStep(utfbytes, i);
      var next := Decode(state, codep, b);
      state, codep := next.0, next.1;
      if state == Reject {
        RejectedPrefixRejects(utfbytes, i + 1);
        return false;
      }
      forall k | 0 <= k <= i + 1
        ensures StateAfter(Accept, utfbytes[..k]) != Reject
      {
        if k == i + 1 {
          assert StateAfter(Accept, utfbytes[..k]) == state;
        }
      }
    }
    assert utfbytes[..|utfbytes|] == utfbytes;
    return true;
  }
}
