/** The subject string of a match and the three ways the engine moves over it.

    A position is an index into the code units.  In UTF-16 mode (the "u" and
    "v" flags) a high surrogate followed by a low one is one character, so one
    step may cover two units; in the other modes a character is a unit. */
module RegexpInput {

  datatype Input = Input(units: seq<nat>, utf16: bool) {

    ghost predicate Valid() {
      forall i :: 0 <= i < |units| ==> units[i] < (if utf16 then 0x1_0000 else 0x11_0000)
    }

    function Length(): nat {
      |units|
    }
  }

  predicate IsHigh(c: nat) {
    0xD800 <= c < 0xDC00
  }

  predicate IsLow(c: nat) {
    0xDC00 <= c < 0xE000
  }

  /** Units p and p + 1 form one character when reading stops at `end`. */
  predicate IsPair(inp: Input, p: nat, end: nat)
    requires end <= |inp.units|
  {
    inp.utf16 && p + 1 < end && IsHigh(inp.units[p]) && IsLow(inp.units[p + 1])
  }

  /** GET_CHAR: the position after the character at `p`. */
  function Next(inp: Input, p: nat, end: nat): (r: nat)
    requires p < end <= |inp.units|
    ensures p < r <= end
  {
    if IsPair(inp, p, end) then p + 2 else p + 1
  }

  /** GET_CHAR and PEEK_CHAR: the character at `p`. */
  function CharAt(inp: Input, p: nat, end: nat): nat
    requires p < end <= |inp.units|
  {
    if IsPair(inp, p, end)
    then 0x10000 + 0x400 * (inp.units[p] - 0xD800) + (inp.units[p + 1] - 0xDC00)
    else inp.units[p]
  }

  /** PREV_CHAR and GET_PREV_CHAR: the position before the character that ends at `p`. */
  function Prev(inp: Input, p: nat, start: nat): (r: nat)
    requires start < p <= |inp.units|
    ensures start <= r < p
  {
    if inp.utf16 && IsLow(inp.units[p - 1]) && start < p - 1 && IsHigh(inp.units[p - 2])
    then p - 2 else p - 1
  }

  /** A position the engine may stop at: never between the two halves of a pair. */
  predicate Boundary(inp: Input, p: nat) {
    p <= |inp.units| &&
    !(inp.utf16 && 0 < p < |inp.units| && IsHigh(inp.units[p - 1]) && IsLow(inp.units[p]))
  }

  /** The emitter wraps a character test in two `prev` when it matches backward.
      Reading the character in between moves forward again; the second `prev`
      takes back exactly that step, from any starting position. */
  lemma PrevNextPrev(inp: Input, p: nat)
    requires 0 < p <= |inp.units|
    ensures var q := Prev(inp, p, 0); Prev(inp, Next(inp, q, |inp.units|), 0) == q
  {
  }

  /** Stepping forward and then backward returns to the same place, and both
      steps keep to boundaries. */
  lemma StepsKeepBoundaries(inp: Input, p: nat)
    requires Boundary(inp, p)
    ensures p < |inp.units| ==>
              var q := Next(inp, p, |inp.units|); Boundary(inp, q) && Prev(inp, q, 0) == p
    ensures 0 < p ==>
              var q := Prev(inp, p, 0); Boundary(inp, q) && Next(inp, q, |inp.units|) == p
  {
  }
}
