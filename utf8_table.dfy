/** The constant data of the byte-class DFA validator in libs/websocket/_utils.py:
    the state constants, the 364-entry table `_UTF8D`, and its reading in terms
    of the byte ranges of UTF-8 (RFC 3629, section 4). */
module Utf8Table {

  /** One octet of input, as Python 3 yields it when iterating over `bytes`. */
  type Byte = x: int | 0 <= x < 256

  /** `_UTF8_ACCEPT`: no sequence pending, at a character boundary. */
  const Accept: int := 0
  /** `_UTF8_REJECT`: the input is not UTF-8. */
  const Reject: int := 12

  /** `_UTF8D`, entry for entry. The first 256 entries map a byte to its
      character class (0 to 11); the remaining 108 entries are the transition
      table, indexed by `256 + state + class`. Each display below is one
      source line of the table. */
  const Utf8d: seq<int> := ClassPart + TransitionPart

  /** Lines 53-60 of the table: byte to character class. */
  const ClassPart: seq<int> :=
    [0,0,0,0,0,0,0,0,0,0,0,0,0,0,0,0,  0,0,0,0,0,0,0,0,0,0,0,0,0,0,0,0] +
    [0,0,0,0,0,0,0,0,0,0,0,0,0,0,0,0,  0,0,0,0,0,0,0,0,0,0,0,0,0,0,0,0] +
    [0,0,0,0,0,0,0,0,0,0,0,0,0,0,0,0,  0,0,0,0,0,0,0,0,0,0,0,0,0,0,0,0] +
    [0,0,0,0,0,0,0,0,0,0,0,0,0,0,0,0,  0,0,0,0,0,0,0,0,0,0,0,0,0,0,0,0] +
    [1,1,1,1,1,1,1,1,1,1,1,1,1,1,1,1,  9,9,9,9,9,9,9,9,9,9,9,9,9,9,9,9] +
    [7,7,7,7,7,7,7,7,7,7,7,7,7,7,7,7,  7,7,7,7,7,7,7,7,7,7,7,7,7,7,7,7] +
    [8,8,2,2,2,2,2,2,2,2,2,2,2,2,2,2,  2,2,2,2,2,2,2,2,2,2,2,2,2,2,2,2] +
    [10,3,3,3,3,3,3,3,3,3,3,3,3,4,3,3, 11,6,6,6,5,8,8,8,8,8,8,8,8,8,8,8]

  /** Lines 64-68 of the table: (state + class) to state. */
  const TransitionPart: seq<int> :=
    [0,12,24,36,60,96,84,12,12,12,48,72, 12,12,12,12,12,12,12,12,12,12,12,12] +
    [12, 0,12,12,12,12,12, 0,12, 0,12,12, 12,24,12,12,12,12,12,24,12,24,12,12] +
    [12,12,12,12,12,12,12,24,12,12,12,12, 12,24,12,12,12,12,12,12,12,24,12,12] +
    [12,12,12,12,12,12,12,36,12,36,12,12, 12,36,12,12,12,12,12,36,12,36,12,12] +
    [12,36,12,12,12,12,12,12,12,12,12,12]

  /** The automaton's states: the multiples of 12 from 0 to 96. */
  predicate IsState(s: int) {
    0 <= s <= 96 && s % 12 == 0
  }

  // The pending states, named after what they still expect.
  /** One continuation byte (80-BF) still to come. */
  const Need1: int := 24
  /** Two continuation bytes still to come. */
  const Need2: int := 36
  /** After E0: the next byte must be A0-BF (no overlong form). */
  const AfterE0: int := 48
  /** After ED: the next byte must be 80-9F (no surrogate). */
  const AfterED: int := 60
  /** After F0: the next byte must be 90-BF (no overlong form). */
  const AfterF0: int := 72
  /** Three continuation bytes still to come. */
  const Need3: int := 84
  /** After F4: the next byte must be 80-8F (nothing above U+10FFFF). */
  const AfterF4: int := 96

  /** `UTF8-tail` of RFC 3629: a continuation byte. */
  predicate IsTail(b: Byte) {
    0x80 <= b <= 0xBF
  }

  /** The character class of a byte, read off the byte ranges of RFC 3629:
      0 ASCII, 1/9/7 the continuation bytes 80-8F/90-9F/A0-BF, 2 a two-byte
      leader, 10/3/4 the three-byte leaders E0, E1-EC and EE-EF, ED,
      11/6/5 the four-byte leaders F0, F1-F3, F4, and 8 a byte that never
      occurs in UTF-8 (C0, C1, F5-FF). */
  function ClassOf(b: Byte): int {
    if b < 0x80 then 0
    else if b < 0x90 then 1
    else if b < 0xA0 then 9
    else if b < 0xC0 then 7
    else if b < 0xC2 then 8
    else if b < 0xE0 then 2
    else if b == 0xE0 then 10
    else if b == 0xED then 4
    else if b < 0xF0 then 3
    else if b == 0xF0 then 11
    else if b < 0xF4 then 6
    else if b == 0xF4 then 5
    else 8
  }

  /** The DFA read as RFC 3629 describes UTF-8: from `Accept` a leader opens
      a sequence whose state says which continuation bytes may follow;
      every byte that the grammar does not allow at that point leads to
      `Reject`, which is never left. */
  function NextRef(state: int, b: Byte): (next: int)
    ensures IsState(next)
    ensures state == Reject ==> next == Reject
  {
    if state == Accept then
      if b < 0x80 then Accept
      else if 0xC2 <= b <= 0xDF then Need1
      else if b == 0xE0 then AfterE0
      else if b == 0xED then AfterED
      else if 0xE1 <= b <= 0xEF then Need2
      else if b == 0xF0 then AfterF0
      else if 0xF1 <= b <= 0xF3 then Need3
      else if b == 0xF4 then AfterF4
      else Reject
    else if state == Need1 then (if IsTail(b) then Accept else Reject)
    else if state == Need2 then (if IsTail(b) then Need1 else Reject)
    else if state == AfterE0 then (if 0xA0 <= b <= 0xBF then Need1 else Reject)
    else if state == AfterED then (if 0x80 <= b <= 0x9F then Need1 else Reject)
    else if state == AfterF0 then (if 0x90 <= b <= 0xBF then Need2 else Reject)
    else if state == Need3 then (if IsTail(b) then Need2 else Reject)
    else if state == AfterF4 then (if 0x80 <= b <= 0x8F then Need2 else Reject)
    else Reject
  }

  // Runs of equal classes in the first part of the table (lines 53-60).
  lemma ClassRunAsciiLow(b: Byte) requires b < 0x40 ensures ClassPart[b] == 0 {}
  lemma ClassRunAsciiHigh(b: Byte) requires 0x40 <= b < 0x80 ensures ClassPart[b] == 0 {}
  lemma ClassRunTail80(b: Byte) requires 0x80 <= b < 0x90 ensures ClassPart[b] == 1 {}
  lemma ClassRunTail90(b: Byte) requires 0x90 <= b < 0xA0 ensures ClassPart[b] == 9 {}
  lemma ClassRunTailA0(b: Byte) requires 0xA0 <= b < 0xC0 ensures ClassPart[b] == 7 {}
  lemma ClassRunTwoByte(b: Byte) requires 0xC2 <= b < 0xE0 ensures ClassPart[b] == 2 {}
  lemma ClassRunThreeByte(b: Byte) requires 0xE1 <= b < 0xF0 && b != 0xED ensures ClassPart[b] == 3 {}
  lemma ClassRunNever(b: Byte) requires 0xF5 <= b ensures ClassPart[b] == 8 {}

  /** The first part of `_UTF8D` is exactly the class map `ClassOf`: every
      byte has a class in 0..11, so `256 + state + class` stays inside the
      table for every state. */
  lemma ClassPartAgrees(b: Byte)
    ensures |ClassPart| == 256 && |Utf8d| == 364
    ensures Utf8d[b] == ClassPart[b] == ClassOf(b)
    ensures 0 <= Utf8d[b] < 12
  {
    if b < 0x40 { ClassRunAsciiLow(b); }
    else if b < 0x80 { ClassRunAsciiHigh(b); }
    else if b < 0x90 { ClassRunTail80(b); }
    else if b < 0xA0 { ClassRunTail90(b); }
    else if b < 0xC0 { ClassRunTailA0(b); }
    else if 0xC2 <= b < 0xE0 { ClassRunTwoByte(b); }
    else if 0xE1 <= b < 0xF0 && b != 0xED { ClassRunThreeByte(b); }
    else if 0xF5 <= b { ClassRunNever(b); }
  }

  /** The table is the class part followed by the transition part. */
  lemma Parts()
    ensures |ClassPart| == 256 && |TransitionPart| == 108
    ensures Utf8d[256..] == TransitionPart
  {
  }

  lemma SecondPart(j: int)
    requires 0 <= j < 108
    ensures |Utf8d| == 364 && Utf8d[256 + j] == TransitionPart[j]
  {
    Parts();
    assert Utf8d[256 + j] == Utf8d[256..][j];
  }

  // One row of the transition part (lines 64-68) at a time.
  lemma RowAccept(state: int, b: Byte)
    requires state == Accept
    ensures TransitionPart[state + ClassOf(b)] == NextRef(state, b)
  {}
  lemma RowReject(state: int, b: Byte)
    requires state == Reject
    ensures TransitionPart[state + ClassOf(b)] == NextRef(state, b)
  {}
  lemma RowNeed1(state: int, b: Byte)
    requires state == Need1
    ensures TransitionPart[state + ClassOf(b)] == NextRef(state, b)
  {}
  lemma RowNeed2(state: int, b: Byte)
    requires state == Need2
    ensures TransitionPart[state + ClassOf(b)] == NextRef(state, b)
  {}
  lemma RowAfterE0(state: int, b: Byte)
    requires state == AfterE0
    ensures TransitionPart[state + ClassOf(b)] == NextRef(state, b)
  {}
  lemma RowAfterED(state: int, b: Byte)
    requires state == AfterED
    ensures TransitionPart[state + ClassOf(b)] == NextRef(state, b)
  {}
  lemma RowAfterF0(state: int, b: Byte)
    requires state == AfterF0
    ensures TransitionPart[state + ClassOf(b)] == NextRef(state, b)
  {}
  lemma RowNeed3(state: int, b: Byte)
    requires state == Need3
    ensures TransitionPart[state + ClassOf(b)] == NextRef(state, b)
  {}
  lemma RowAfterF4(state: int, b: Byte)
    requires state == AfterF4
    ensures TransitionPart[state + ClassOf(b)] == NextRef(state, b)
  {}

  lemma TransitionRowAgrees(state: int, b: Byte)
    requires IsState(state)
    ensures TransitionPart[state + ClassOf(b)] == NextRef(state, b)
  {
    if state == Accept { RowAccept(state, b); }
    else if state == Reject { RowReject(state, b); }
    else if state == Need1 { RowNeed1(state, b); }
    else if state == Need2 { RowNeed2(state, b); }
    else if state == AfterE0 { RowAfterE0(state, b); }
    else if state == AfterED { RowAfterED(state, b); }
    else if state == AfterF0 { RowAfterF0(state, b); }
    else if state == Need3 { RowNeed3(state, b); }
    else { RowAfterF4(state, b); }
  }

  /** The lookup `_UTF8D[256 + state + _UTF8D[ch]]` made by `_decode` stays
      inside the table and yields exactly the automaton `NextRef`. */
  lemma TableLookupAgrees(state: int, b: Byte)
    requires IsState(state)
    ensures 0 <= Utf8d[b] < 12 && |Utf8d| == 364
    ensures Utf8d[256 + state + Utf8d[b]] == NextRef(state, b)
  {
    ClassPartAgrees(b);
    SecondPart(state + ClassOf(b));
    TransitionRowAgrees(state, b);
  }

  /** A byte of each class: `ClassOf(Representative(c)) == c`. */
  function Representative(c: int): (b: Byte)
    requires 0 <= c < 12
    ensures ClassOf(b) == c
  {
    [0x00, 0x80, 0xC2, 0xE1, 0xED, 0xF4, 0xF1, 0xA0, 0xC0, 0x90, 0xE0, 0xF0][c]
  }

  /** Every entry of the transition part names a state. */
  lemma TransitionEntryIsState(state: int, c: int)
    requires IsState(state) && 0 <= c < 12
    ensures IsState(TransitionPart[state + c])
  {
    TransitionRowAgrees(state, Representative(c));
  }

  /** Every entry of the first part is a class in 0..11. */
  lemma ClassEntriesInRange()
    ensures forall i :: 0 <= i < 256 ==> 0 <= Utf8d[i] < 12
  {
    forall i | 0 <= i < 256
      ensures 0 <= Utf8d[i] < 12
    {
      ClassPartAgrees(i);
    }
  }

  /** Every entry of the second part is a state. */
  lemma TransitionEntriesAreStates()
    ensures |Utf8d| == 364
    ensures forall i :: 256 <= i < 364 ==> IsState(Utf8d[i])
  {
    SecondPart(0);
    forall i | 256 <= i < 364
      ensures IsState(Utf8d[i])
    {
      var c := (i - 256) % 12;
      var state := i - 256 - c;
      TransitionEntryIsState(state, c);
      SecondPart(state + c);
    }
  }

  /** `_UTF8D` has 256 + 9 * 12 entries; the first 256 are classes in 0..11
      and the other 108 are states, multiples of 12 in 0..96. So the lookup
      `256 + state + class` that `_decode` makes is always inside the table
      and yields a state again. */
  lemma TableWellFormed()
    ensures |Utf8d| == 256 + 9 * 12
    ensures forall i :: 0 <= i < 256 ==> 0 <= Utf8d[i] < 12
    ensures forall i :: 256 <= i < |Utf8d| ==> IsState(Utf8d[i])
  {
    ClassEntriesInRange();
    TransitionEntriesAreStates();
  }
}
