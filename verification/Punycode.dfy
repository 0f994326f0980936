/** Punycode (RFC 3492) as the bundled punycode.js computes it.

    Strings are sequences of 16-bit units. The functions here fix what the loops
    of PunycodeLoops compute; PunycodeRoundTrip proves that they undo each other. */
module Punycode {
  import opened Arithmetic

  datatype Error = Overflow | NotBasic | InvalidInput | BadCodePoint

  datatype Result<+T> = Ok(value: T) | Err(error: Error)

  const MAX_INT: int := 0x7FFF_FFFF
  const BASE: int := 36
  const T_MIN: int := 1
  const T_MAX: int := 26
  const SKEW: int := 38
  const DAMP: int := 700
  const INITIAL_BIAS: int := 72
  const INITIAL_N: int := 128
  const DELIMITER: nat := 0x2D

  // ----- UTF-16 -------------------------------------------------------------

  predicate IsHigh(u: nat) {
    0xD800 <= u <= 0xDBFF
  }

  predicate IsLow(u: nat) {
    0xDC00 <= u <= 0xDFFF
  }

  /** ucs2decode: surrogate pairs become one code point, stray surrogates stay. */
  function Ucs2Decode(s: seq<nat>): seq<nat>
    decreases |s|
  {
    if s == [] then []
    else if IsHigh(s[0]) && |s| > 1 && IsLow(s[1]) then
      [(s[0] - 0xD800) * 0x400 + (s[1] - 0xDC00) + 0x10000] + Ucs2Decode(s[2..])
    else [s[0]] + Ucs2Decode(s[1..])
  }

  predicate IsCodePoint(c: int) {
    0 <= c <= 0x10FFFF
  }

  function Units(c: nat): seq<nat>
    requires IsCodePoint(c)
  {
    if c < 0x10000 then [c] else [0xD800 + (c - 0x10000) / 0x400, 0xDC00 + (c - 0x10000) % 0x400]
  }

  /** String.fromCodePoint, which throws a RangeError for what is not a code point. */
  function FromCodePoints(cs: seq<int>): Result<seq<nat>>
    decreases |cs|
  {
    if cs == [] then Ok([])
    else if !IsCodePoint(cs[0]) then Err(BadCodePoint)
    else
      match FromCodePoints(cs[1..])
      case Ok(rest) => Ok(Units(cs[0]) + rest)
      case Err(e) => Err(e)
  }

  // ----- digits and bias ----------------------------------------------------

  /** For characters outside 0-9, A-Z and a-z the source's comparisons have no
      lower bound, so that the result can be negative. */
  function BasicToDigit(c: nat): (d: int)
    ensures d <= BASE
  {
    if c - 0x30 < 0x0A then c - 0x16
    else if c - 0x41 < 0x1A then c - 0x41
    else if c - 0x61 < 0x1A then c - 0x61
    else BASE
  }

  function DigitToBasic(d: int): (c: nat)
    requires 0 <= d < BASE
    ensures BasicToDigit(c) == d
    ensures 0x30 <= c <= 0x39 || 0x61 <= c <= 0x7A
  {
    d + 22 + if d < 26 then 75 else 0
  }

  function FloorDiv(a: int, b: int): int
    requires b != 0
  {
    if b > 0 then a / b else (-a) / (-b)
  }

  /** The remainder of a JavaScript `%`, which has the sign of the dividend. */
  function Rem(a: int, b: int): (r: int)
    requires b > 0
    ensures -b < r < b
    ensures a >= 0 ==> r == a % b
  {
    if a >= 0 then a % b else -((-a) % b)
  }

  /** `x >> 1` on 32-bit integers. */
  function Halve(x: int): (r: int)
    ensures 0 <= x <= MAX_INT ==> r == x / 2
  {
    var u := x % 0x1_0000_0000;
    (if u > MAX_INT then u - 0x1_0000_0000 else u) / 2
  }

  /** The loop and the final quotient of adapt. For delta == -38, which only
      malformed input leads to, the source's bias is minus infinity; every
      bias below 11 has the same effect. */
  function Scale(delta: int, k: nat): int
    decreases if delta > 455 then delta else 0
  {
    if delta > 455 then Scale(delta / (BASE - T_MIN), k + 36)
    else if delta + SKEW == 0 then 0
    else k + FloorDiv((BASE - T_MIN + 1) * delta, delta + SKEW)
  }

  function Adapt(delta: int, numPoints: nat, firstTime: bool): int
    requires numPoints > 0
  {
    var d := if firstTime then delta / DAMP else Halve(delta);
    Scale(d + d / numPoints, 0)
  }

  function Threshold(k: int, bias: int): (t: int)
    ensures T_MIN <= t <= T_MAX
  {
    if k <= bias then T_MIN else if k >= bias + T_MAX then T_MAX else k - bias
  }

  // ----- decoding -----------------------------------------------------------

  /** A generalized variable-length integer, added to `i`; and what follows it. */
  function ReadDelta(text: seq<nat>, i: int, w: nat, k: nat, bias: int): (r: Result<(int, seq<nat>)>)
    requires w > 0
    ensures r.Ok? ==> |r.value.1| < |text|
    decreases |text|
  {
    if text == [] then Err(InvalidInput)
    else
      var digit := BasicToDigit(text[0]);
      if digit >= BASE || digit > (MAX_INT - i) / w then Err(Overflow)
      else
        var i1, t := i + digit * w, Threshold(k, bias);
        if digit < t then Ok((i1, text[1..]))
        else if w > MAX_INT / (BASE - t) then Err(Overflow)
        else ReadDelta(text[1..], i1, w * (BASE - t), k + 36, bias)
  }

  /** `output.splice(i, 0, n)`; a negative index counts from the end. */
  function Splice(out: seq<int>, i: int, n: int): seq<int> {
    var at := if i >= 0 then (if i <= |out| then i else |out|) else if |out| + i >= 0 then |out| + i else 0;
    out[..at] + [n] + out[at..]
  }

  /** The state of the main decoding loop. */
  datatype Dec = Dec(out: seq<int>, n: int, i: int, bias: int)

  /** One code point inserted; `i` has already been increased by its delta. */
  function Insert(d: Dec, i: int): Result<Dec> {
    var len := |d.out| + 1;
    if i / len > MAX_INT - d.n then Err(Overflow)
    else
      var n, at := d.n + i / len, Rem(i, len);
      Ok(Dec(Splice(d.out, at, n), n, at + 1, Adapt(i - d.i, len, d.i == 0)))
  }

  function DecodeMain(text: seq<nat>, d: Dec): Result<seq<int>>
    decreases |text|
  {
    if text == [] then Ok(d.out)
    else
      match ReadDelta(text, d.i, 1, 36, d.bias)
      case Err(e) => Err(e)
      case Ok((i, rest)) =>
        match Insert(d, i)
        case Err(e) => Err(e)
        case Ok(d1) => DecodeMain(rest, d1)
  }

  /** `lastIndexOf(delimiter)`, or 0 when there is none. */
  function Basic(text: seq<nat>): (b: nat)
    ensures b <= |text| && (b > 0 ==> b < |text| && text[b] == DELIMITER)
    decreases |text|
  {
    if text == [] then 0
    else if text[|text| - 1] == DELIMITER then |text| - 1
    else Basic(text[..|text| - 1])
  }

  function Start(text: seq<nat>): (r: nat)
    ensures r <= |text|
  {
    if Basic(text) > 0 then Basic(text) + 1 else 0
  }

  function Initial(basic: seq<int>): Dec {
    Dec(basic, INITIAL_N, 0, INITIAL_BIAS)
  }

  function DecodePoints(text: seq<nat>): Result<seq<int>> {
    if exists j :: 0 <= j < Basic(text) && text[j] >= 0x80 then Err(NotBasic)
    else DecodeMain(text[Start(text)..], Initial(text[..Basic(text)]))
  }

  function Decode(text: seq<nat>): Result<seq<nat>> {
    match DecodePoints(text)
    case Ok(cs) => FromCodePoints(cs)
    case Err(e) => Err(e)
  }

  // ----- encoding -----------------------------------------------------------

  function EmitDelta(q: nat, k: nat, bias: int): seq<nat>
    decreases q
  {
    var t := Threshold(k, bias);
    if q < t then [DigitToBasic(q)]
    else
      QuotientParts(q - t, BASE - t);
      [DigitToBasic(t + (q - t) % (BASE - t))] + EmitDelta((q - t) / (BASE - t), k + 36, bias)
  }

  /** The elements below `n`, in order. */
  function Keep(c: seq<nat>, n: int): (r: seq<nat>)
    ensures |r| <= |c|
  {
    if c == [] then [] else (if c[0] < n then [c[0]] else []) + Keep(c[1..], n)
  }

  /** The smallest element from `n` up, or `max`. */
  function Smallest(c: seq<nat>, n: int, max: int): (m: int)
    ensures m == max || (m in c && n <= m)
    ensures m <= max
    ensures forall x :: x in c && n <= x ==> m <= x
    decreases |c|
  {
    if c == [] then max
    else
      var m := Smallest(c[..|c| - 1], n, max);
      assert c == c[..|c| - 1] + [c[|c| - 1]];
      if n <= c[|c| - 1] < m then c[|c| - 1] else m
  }

  lemma {:induction false} KeepAppend(a: seq<nat>, b: seq<nat>, n: int)
    ensures Keep(a + b, n) == Keep(a, n) + Keep(b, n)
  {
    if a == [] {
      assert a + b == b;
    } else {
      assert (a + b)[1..] == a[1..] + b;
      KeepAppend(a[1..], b, n);
    }
  }

  /** What has been handled when a pass for `n` gets to position `p`: the code
      points up to `n` before it, and those below `n` after it. */
  function Handled(c: seq<nat>, p: nat, n: int): seq<nat>
    requires p <= |c|
  {
    Keep(c[..p], n + 1) + Keep(c[p..], n)
  }

  lemma HandledStep(c: seq<nat>, p: nat, n: int)
    requires p < |c|
    ensures Keep(c[..p + 1], n + 1) == Keep(c[..p], n + 1) + if c[p] <= n then [c[p]] else []
    ensures Keep(c[p..], n) == (if c[p] < n then [c[p]] else []) + Keep(c[p + 1..], n)
    ensures c[p] != n ==> Handled(c, p + 1, n) == Handled(c, p, n)
  {
    assert c[..p + 1] == c[..p] + [c[p]];
    KeepAppend(c[..p], [c[p]], n + 1);
    assert c[p..][1..] == c[p + 1..];
  }

  lemma HandledEnds(c: seq<nat>, n: int)
    ensures Handled(c, 0, n) == Keep(c, n) && Handled(c, |c|, n) == Keep(c, n + 1)
  {
    assert c[..0] == [] && c[0..] == c && c[..|c|] == c && c[|c|..] == [];
  }

  /** Nothing between `n` and `m`: the same elements are below either. */
  lemma {:induction false} KeepSame(c: seq<nat>, n: int, m: int)
    requires n <= m && forall x :: x in c && n <= x ==> m <= x
    ensures Keep(c, m) == Keep(c, n)
  {
    if c != [] {
      assert c[0] in c && forall x :: x in c[1..] ==> x in c;
      KeepSame(c[1..], n, m);
    }
  }

  /** Everything is below `n`, or something is left to be handled. */
  lemma {:induction false} KeepAll(c: seq<nat>, n: int)
    ensures |Keep(c, n)| < |c| ==> exists x :: x in c && n <= x
    ensures |Keep(c, n)| == |c| ==> Keep(c, n) == c
  {
    if c != [] {
      KeepAll(c[1..], n);
      if n <= c[0] {
        assert c[0] in c;
      } else if |Keep(c[1..], n)| < |c[1..]| {
        var x :| x in c[1..] && n <= x;
        assert x in c;
      }
    }
  }

  lemma {:induction false} KeepMore(c: seq<nat>, n: nat)
    ensures |Keep(c, n)| <= |Keep(c, n + 1)|
    ensures n in c ==> |Keep(c, n)| < |Keep(c, n + 1)|
  {
    if c != [] {
      KeepMore(c[1..], n);
      if n in c && c[0] != n {
        var i :| 0 <= i < |c| && c[i] == n;
        assert c[1..][i - 1] == n;
      }
    }
  }

  /** The state of the encoder; `h` counts the handled code points. */
  datatype Enc = Enc(out: seq<nat>, delta: nat, bias: int, h: nat)

  /** One pass over the input for the code point `n`. `points` is computed
      before the pass and not updated while `h` grows. */
  function EncodePass(c: seq<nat>, p: nat, n: nat, e: Enc, points: nat, basicLength: nat): (r: Result<Enc>)
    requires p <= |c| && points > 0 && e.h == |Handled(c, p, n)|
    ensures r.Ok? ==> r.value.h == |Keep(c, n + 1)|
    decreases |c| - p
  {
    if p == |c| then
      HandledEnds(c, n);
      Ok(e)
    else
      HandledStep(c, p, n);
      if c[p] < n then
        if e.delta + 1 > MAX_INT then Err(Overflow)
        else EncodePass(c, p + 1, n, e.(delta := e.delta + 1), points, basicLength)
      else if c[p] == n then EncodePass(c, p + 1, n, Emit(e, points, basicLength), points, basicLength)
      else EncodePass(c, p + 1, n, e, points, basicLength)
  }

  function Emit(e: Enc, points: nat, basicLength: nat): Enc
    requires points > 0
  {
    Enc(e.out + EmitDelta(e.delta, 36, e.bias), 0, Adapt(e.delta, points, e.h == basicLength), e.h + 1)
  }

  /** Enough delta to take the decoder from one code point to the one `steps` above. */
  function Skip(e: Enc, steps: nat): Enc {
    Product(steps, e.h + 1);
    e.(delta := e.delta + steps * (e.h + 1))
  }

  lemma Product(a: nat, b: nat)
    ensures a * b >= 0
  {
  }

  lemma NextPass(c: seq<nat>, n: nat, m: int)
    requires |Keep(c, n)| < |c| && m == Smallest(c, n, MAX_INT) && forall x :: x in c ==> x < MAX_INT
    ensures m in c && n <= m < MAX_INT
    ensures Keep(c, m) == Keep(c, n) && Handled(c, 0, m) == Keep(c, n) && |Keep(c, n)| < |Keep(c, m + 1)|
  {
    KeepAll(c, n);
    KeepSame(c, n, m);
    HandledEnds(c, m);
    KeepMore(c, m);
  }

  /** The main loop: code point by code point, in increasing order. */
  function EncodeMain(c: seq<nat>, n: nat, e: Enc, basicLength: nat): Result<seq<nat>>
    requires e.h == |Keep(c, n)| && forall x :: x in c ==> x < MAX_INT
    decreases |c| - e.h
  {
    if e.h >= |c| then Ok(e.out)
    else
      var m := Smallest(c, n, MAX_INT);
      NextPass(c, n, m);
      if m - n > (MAX_INT - e.delta) / (e.h + 1) then Err(Overflow)
      else
        match EncodePass(c, 0, m, Skip(e, m - n), e.h + 1, basicLength)
        case Err(x) => Err(x)
        case Ok(e1) => EncodeMain(c, m + 1, e1.(delta := e1.delta + 1), basicLength)
  }

  predicate CodePoints(c: seq<nat>) {
    forall i :: 0 <= i < |c| ==> IsCodePoint(c[i])
  }

  function EncodePoints(c: seq<nat>): Result<seq<nat>>
    requires CodePoints(c)
  {
    var basic := Keep(c, 0x80);
    EncodeMain(c, INITIAL_N, Enc(basic + if basic == [] then [] else [DELIMITER], 0, INITIAL_BIAS, |basic|), |basic|)
  }

  predicate IsString(s: seq<nat>) {
    forall i :: 0 <= i < |s| ==> s[i] < 0x10000
  }

  lemma {:induction false} DecodedPoints(s: seq<nat>)
    requires IsString(s)
    ensures CodePoints(Ucs2Decode(s))
    decreases |s|
  {
    if s == [] {
    } else if IsHigh(s[0]) && |s| > 1 && IsLow(s[1]) {
      DecodedPoints(s[2..]);
    } else {
      DecodedPoints(s[1..]);
    }
  }

  function Encode(s: seq<nat>): Result<seq<nat>>
    requires IsString(s)
  {
    DecodedPoints(s);
    EncodePoints(Ucs2Decode(s))
  }
}
