/** Decoding undoes encoding (sections 6.1 to 6.3 of RFC 3492).

    Decoder and encoder keep the same bias, and the decoder's (n, i) is where the
    encoder's delta says it is, at every point of the encoder's loops. The only
    difference between the two is in their overflow checks: the encoder checks
    delta, the decoder i + delta. */
module PunycodeRoundTrip {
  import opened Punycode
  import opened Arithmetic

  // ----- one variable-length integer -----------------------------------------

  function Pow35(j: nat): nat {
    if j == 0 then 1 else 35 * Pow35(j - 1)
  }

  lemma Pow35Values()
    ensures Pow35(0) == 1 && Pow35(1) == 35 && Pow35(2) == 1225 && Pow35(3) == 42875
    ensures Pow35(4) == 1500625 && Pow35(5) == 52521875 && Pow35(6) == 1838265625
  {
    assert Pow35(1) == 35 * Pow35(0);
    assert Pow35(2) == 35 * Pow35(1);
    assert Pow35(3) == 35 * Pow35(2);
    assert Pow35(4) == 35 * Pow35(3);
    assert Pow35(5) == 35 * Pow35(4);
    assert Pow35(6) == 35 * Pow35(5);
  }

  /** The weight of digit `j` never overflows on the way through an encoded
      delta, because the bias is at most 213: by the time the weight exceeds
      35^6 the threshold is 26. */
  lemma WeightFits(q: int, j: nat, bias: int, w: nat)
    requires bias <= 213 && w > 0 && (j <= 6 ==> w <= Pow35(j)) && q * w <= MAX_INT
    requires q >= Threshold(36 * (j + 1), bias)
    ensures var b := BASE - Threshold(36 * (j + 1), bias);
            w * b <= MAX_INT && (j + 1 <= 6 ==> w * b <= Pow35(j + 1))
  {
    var b := BASE - Threshold(36 * (j + 1), bias);
    if j <= 5 {
      Times(w, Pow35(j), b, 35);
      PowBelow(j + 1);
    } else {
      assert b == 10;
      Times(w, w, 26, q);
    }
  }

  lemma PowBelow(j: nat)
    requires j <= 6
    ensures Pow35(j) <= MAX_INT
  {
    Pow35Values();
  }

  /** Reading back what EmitDelta writes adds `q` to `i`, or overflows exactly
      when the sum does. */
  lemma {:induction false} ReadEmit(q: nat, j: nat, bias: int, i: int, w: nat, sum: int, rest: seq<nat>)
    requires 0 <= bias <= 213 && w > 0 && (j <= 6 ==> w <= Pow35(j)) && q * w <= MAX_INT && sum == i + q * w
    ensures ReadDelta(EmitDelta(q, 36 * (j + 1), bias) + rest, i, w, 36 * (j + 1), bias)
         == if sum <= MAX_INT then Ok((sum, rest)) else Err(Overflow)
    decreases q
  {
    hide Threshold, Pow35, EmitDelta, ReadDelta, BasicToDigit, Digit, Left;
    var k := 36 * (j + 1);
    var t, text := Threshold(k, bias), EmitDelta(q, k, bias) + rest;
    EmitOne(q, k, bias, rest);
    if q < t {
      ReadDigit(text, q, i, w, sum, q * w, k, bias);
    } else {
      var i1, w1 := SplitDigits(q, j, bias, i, w, sum);
      ReadDigit(text, Digit(q, t), i, w, i1, w1, k, bias);
      if i1 <= MAX_INT {
        ReadEmit(Left(q, t), j + 1, bias, i1, w1, sum, rest);
      }
    }
  }

  /** The first digit written. */
  lemma EmitOne(q: nat, k: nat, bias: int, rest: seq<nat>)
    ensures var t, text := Threshold(k, bias), EmitDelta(q, k, bias) + rest;
            && text != []
            && (q < t ==> BasicToDigit(text[0]) == q && text[1..] == rest)
            && (q >= t ==> Left(q, t) >= 0 && BasicToDigit(text[0]) == Digit(q, t)
                           && text[1..] == EmitDelta(Left(q, t), k + 36, bias) + rest)
  {
    hide Threshold, BasicToDigit;
  }

  /** The first digit read. */
  lemma ReadDigit(text: seq<nat>, digit: int, i: int, w: nat, i1: int, w1: nat, k: nat, bias: int)
    requires text != [] && w > 0 && digit == BasicToDigit(text[0]) < BASE && i1 == i + digit * w
    requires digit >= Threshold(k, bias) ==> 0 < w1 == w * (BASE - Threshold(k, bias))
    ensures ReadDelta(text, i, w, k, bias)
            == if i1 > MAX_INT then Err(Overflow)
               else if digit < Threshold(k, bias) then Ok((i1, text[1..]))
               else if w1 > MAX_INT then Err(Overflow)
               else ReadDelta(text[1..], i1, w1, k + 36, bias)
  {
    hide Threshold, BasicToDigit;
    QuotientCheck(MAX_INT - i, w, digit);
    QuotientCheck(MAX_INT, BASE - Threshold(k, bias), w);
  }

  /** The digit written when `q` is not below the threshold, and what is left. */
  function Digit(q: nat, t: int): int
    requires t < BASE
  {
    t + (q - t) % (BASE - t)
  }

  function Left(q: nat, t: int): int
    requires t < BASE
  {
    (q - t) / (BASE - t)
  }

  lemma SplitDigits(q: nat, j: nat, bias: int, i: int, w: nat, sum: int) returns (i1: int, w1: nat)
    requires bias <= 213 && w > 0 && (j <= 6 ==> w <= Pow35(j)) && q * w <= MAX_INT && sum == i + q * w
    requires Threshold(36 * (j + 1), bias) <= q
    ensures var t := Threshold(36 * (j + 1), bias);
            var digit, q1 := Digit(q, t), Left(q, t);
            && t <= digit < BASE && 0 <= q1 < q
            && i1 == i + digit * w <= sum && w1 == w * (BASE - t)
            && sum == i1 + q1 * w1 && q1 * w1 <= MAX_INT
            && 0 < w1 <= MAX_INT && (j + 1 <= 6 ==> w1 <= Pow35(j + 1))
  {
    hide Pow35, Threshold, Digit, Left;
    WeightFits(q, j, bias, w);
    var t := Threshold(36 * (j + 1), bias);
    DigitParts(q, t);
    i1, w1 := i + Digit(q, t) * w, w * (BASE - t);
    DigitWeights(q, Digit(q, t), Left(q, t), BASE - t, w);
  }

  lemma DigitParts(q: nat, t: int)
    requires 1 <= t <= 26 && t <= q
    ensures t <= Digit(q, t) < BASE && 0 <= Left(q, t) < q && q == Digit(q, t) + Left(q, t) * (BASE - t)
  {
    QuotientParts(q - t, BASE - t);
  }

  lemma DigitWeights(q: nat, digit: nat, left: nat, b: nat, w: nat)
    requires q == digit + left * b
    ensures q * w == digit * w + left * (w * b) && digit * w >= 0 && left * (w * b) >= 0
            && (b > 0 && w > 0 ==> w * b > 0)
  {
    Distribute(digit, left, b, w);
  }

  lemma Distribute(digit: nat, q1: nat, b: nat, w: nat)
    ensures (digit + q1 * b) * w == digit * w + q1 * (w * b) && q1 * (w * b) >= 0
  {
    assert q1 * (w * b) == (q1 * b) * w >= 0;
  }

  // ----- the bias -----------------------------------------------------------

  lemma {:induction false} ScaleBound(delta: nat, k: nat, j: nat)
    requires delta < 456 * Pow35(j)
    ensures 0 <= Scale(delta, k) <= k + 36 * j + 33
    decreases j
  {
    if delta > 455 {
      assert j > 0;
      ScaleBound(delta / 35, k + 36, j - 1);
    } else {
      assert 36 * delta < 34 * (delta + SKEW);
      assert (36 * delta) / (delta + SKEW) <= 33 by { QuotientCheck(36 * delta, delta + SKEW, 34); }
    }
  }

  lemma AdaptBound(delta: nat, points: nat, firstTime: bool)
    requires delta <= MAX_INT && points > 0
    ensures 0 <= Adapt(delta, points, firstTime) <= 213
  {
    hide Scale, Pow35, Halve;
    assert Halve(delta) == delta / 2;
    var d := if firstTime then delta / DAMP else delta / 2;
    QuotientSmall(d, points);
    Pow35Values();
    ScaleBound(d + d / points, 0, 5);
  }

  /** Within a pass the encoder adapts with the number of points from before the
      pass. From the second occurrence on the delta is so small that this does
      not matter. */
  lemma StalePoints(delta: nat, points: nat, h1: nat)
    requires 0 < points <= h1 && delta < points && delta <= MAX_INT
    ensures Adapt(delta, points, false) == Adapt(delta, h1, false)
  {
    hide Scale;
    NoQuotient(Halve(delta), points);
    NoQuotient(Halve(delta), h1);
  }

  // ----- where the decoder is -------------------------------------------------

  /** The largest code point in [0x80, n), or 0x80. */
  function Largest(c: seq<nat>, n: int): (r: nat)
    ensures INITIAL_N <= r && (r < n || r == INITIAL_N)
  {
    if c == [] then INITIAL_N
    else
      var r := Largest(c[1..], n);
      if r < c[0] < n then c[0] else r
  }

  lemma {:induction false} LargestSame(c: seq<nat>, n: int, m: int)
    requires n <= m && forall x :: x in c && n <= x ==> m <= x
    ensures Largest(c, m) == Largest(c, n)
  {
    if c != [] {
      assert c[0] in c && forall x :: x in c[1..] ==> x in c;
      LargestSame(c[1..], n, m);
    }
  }

  lemma {:induction false} LargestNext(c: seq<nat>, n: nat)
    requires n in c && n >= INITIAL_N
    ensures Largest(c, n + 1) == n
  {
    if c[0] != n {
      assert n in c[1..] by {
        var i :| 0 <= i < |c| && c[i] == n;
        assert c[1..][i - 1] == n;
      }
      LargestNext(c[1..], n);
    }
  }

  /** The code point inserted before that at `p`. */
  function Previous(c: seq<nat>, p: nat): nat
    requires p < |c|
  {
    if c[p] in c[..p] then c[p] else Largest(c, c[p])
  }

  /** How far the decoder goes from code point `dn` to place `rank` of the pass for
      `n`, when `h` code points are in place. */
  function Reach(n: int, dn: int, h: nat, rank: nat): int {
    (n - dn) * (h + 1) + rank
  }

  /** The decoder's `i` while it reads the delta of position `p` does not overflow. */
  predicate FitsAt(c: seq<nat>, p: nat)
    requires p < |c|
  {
    Reach(c[p], Previous(c, p), |Handled(c, p, c[p])|, |Keep(c[..p], c[p] + 1)|) <= MAX_INT
  }

  /** Every code point inserted up to position `p` of the pass for `n` fits. */
  ghost predicate FitUpTo(c: seq<nat>, p: nat, n: int) {
    forall j {:trigger FitsAt(c, j)} :: 0 <= j < |c| && c[j] >= INITIAL_N && (c[j] < n || (c[j] == n && j < p)) ==>
      FitsAt(c, j)
  }

  /** What the decoder makes of `rest` in state `t`. */
  function Continued(t: Result<Dec>, rest: seq<nat>): Result<seq<int>> {
    match t
    case Ok(d) => DecodeMain(rest, d)
    case Err(e) => Err(e)
  }

  /** Whatever follows, the decoder gets through `digits` to state `t`. */
  ghost predicate LeadsTo(digits: seq<nat>, d0: Dec, t: Result<Dec>) {
    forall rest: seq<nat> {:trigger DecodeMain(digits + rest, d0)} ::
      DecodeMain(digits + rest, d0) == Continued(t, rest)
  }

  ghost predicate NoDelimiter(digits: seq<nat>) {
    forall i :: 0 <= i < |digits| ==> digits[i] != DELIMITER
  }

  /** The encoder at position `p` of the pass for `n`, and the decoder after
      reading what the encoder has written. */
  ghost predicate InStep(c: seq<nat>, p: nat, n: nat, e: Enc, b: nat, d: Dec)
    requires p <= |c|
  {
    && d.out == Handled(c, p, n) && d.bias == e.bias && 0 <= e.bias <= 213
    && d.n == (if n in c[..p] then n else Largest(c, n)) && d.n <= n
    && 0 <= d.i && (d.i == 0 <==> e.h == b)
    && d.i + e.delta == Reach(n, d.n, e.h, |Keep(c[..p], n + 1)|)
  }

  ghost predicate Tracks(c: seq<nat>, p: nat, n: nat, e: Enc, b: nat, prefix: seq<nat>, digits: seq<nat>,
                         t: Result<Dec>) {
    && p <= |c| && e.out == prefix + digits && NoDelimiter(digits) && n >= INITIAL_N
    && e.h == |Handled(c, p, n)| && e.h >= b
    && LeadsTo(digits, Initial(Keep(c, INITIAL_N)), t)
    && (t.Ok? <==> FitUpTo(c, p, n))
    && match t
       case Ok(d) => InStep(c, p, n, e, b, d)
       case Err(x) => x == Overflow
  }

  /** What holds only inside a pass. */
  ghost predicate InPass(c: seq<nat>, p: nat, n: nat, e: Enc, b: nat, points: nat) {
    && p <= |c| && e.delta <= MAX_INT && n < MAX_INT && b < points <= e.h + 1 && points == |Keep(c, n)| + 1
    && (n in c[..p] <==> points < e.h + 1)
    && (n in c[..p] ==> e.delta <= |Keep(c[..p], n)|)
  }

  // ----- one code point -------------------------------------------------------

  lemma DigitsOnly(q: nat, k: nat, bias: int)
    ensures NoDelimiter(EmitDelta(q, k, bias)) && EmitDelta(q, k, bias) != []
    decreases q
  {
    hide Threshold;
    var t := Threshold(k, bias);
    if q >= t {
      QuotientParts(q - t, BASE - t);
      DigitsOnly((q - t) / (BASE - t), k + 36, bias);
    }
  }

  lemma LeadsOn(digits: seq<nat>, d0: Dec, d: Dec, more: seq<nat>, t: Result<Dec>)
    requires LeadsTo(digits, d0, Ok(d)) && LeadsTo(more, d, t)
    ensures LeadsTo(digits + more, d0, t)
  {
    forall rest: seq<nat>
      ensures DecodeMain((digits + more) + rest, d0) == Continued(t, rest)
    {
      assert (digits + more) + rest == digits + (more + rest);
      assert DecodeMain(digits + (more + rest), d0) == DecodeMain(more + rest, d);
    }
  }

  lemma DeadEnd(digits: seq<nat>, d0: Dec, more: seq<nat>, e: Error)
    requires LeadsTo(digits, d0, Err(e))
    ensures LeadsTo(digits + more, d0, Err(e))
  {
    forall rest: seq<nat>
      ensures DecodeMain((digits + more) + rest, d0) == Err(e)
    {
      assert (digits + more) + rest == digits + (more + rest);
    }
  }

  /** The decoder reads one delta. */
  lemma ReadOne(d: Dec, delta: nat)
    requires 0 <= d.bias <= 213 && delta <= MAX_INT && 0 <= d.i
    requires d.i + delta <= MAX_INT ==> Insert(d, d.i + delta).Ok?
    ensures LeadsTo(EmitDelta(delta, 36, d.bias), d,
                    if d.i + delta <= MAX_INT then Insert(d, d.i + delta) else Err(Overflow))
  {
    var v := EmitDelta(delta, 36, d.bias);
    DigitsOnly(delta, 36, d.bias);
    hide EmitDelta, ReadDelta, Insert, DecodeMain;
    forall rest: seq<nat>
      ensures DecodeMain(v + rest, d)
           == if d.i + delta <= MAX_INT then DecodeMain(rest, Insert(d, d.i + delta).value) else Err(Overflow)
    {
      ReadRest(d, delta, rest);
    }
  }

  lemma ReadRest(d: Dec, delta: nat, rest: seq<nat>)
    requires 0 <= d.bias <= 213 && delta <= MAX_INT && 0 <= d.i
    requires d.i + delta <= MAX_INT ==> Insert(d, d.i + delta).Ok?
    requires EmitDelta(delta, 36, d.bias) != []
    ensures DecodeMain(EmitDelta(delta, 36, d.bias) + rest, d)
         == if d.i + delta <= MAX_INT then DecodeMain(rest, Insert(d, d.i + delta).value) else Err(Overflow)
  {
    hide EmitDelta, ReadDelta, Insert;
    assert Pow35(0) == 1;
    ReadEmit(delta, 0, d.bias, d.i, 1, d.i + delta, rest);
    assert EmitDelta(delta, 36, d.bias) + rest != [];
  }

  /** The insertion puts the code point where it stands in the input. */
  lemma InsertsAt(c: seq<nat>, p: nat, n: nat, e: Enc, b: nat, points: nat, d: Dec)
    requires p < |c| && c[p] == n && InStep(c, p, n, e, b, d) && InPass(c, p, n, e, b, points)
    requires e.h == |Handled(c, p, n)| && e.h >= b
    ensures Insert(d, d.i + e.delta).Ok?
    ensures InStep(c, p + 1, n, Emit(e, points, b), b, Insert(d, d.i + e.delta).value)
    ensures FitsAt(c, p) <==> d.i + e.delta <= MAX_INT
  {
    hide Adapt, EmitDelta, Largest, Reach, Insert, Keep;
    var rank := |Keep(c[..p], n + 1)|;
    HandledStep(c, p, n);
    assert c[..p + 1] == c[..p] + [n];
    InsertedAt(d, n, e.h, rank, e.delta);
    ReachSame(n, e.h + 1, rank + 1);
    AdaptBound(e.delta, points, e.h == b);
    assert Adapt(e.delta, points, e.h == b) == Adapt(e.delta, e.h + 1, d.i == 0) by {
      if points < e.h + 1 {
        KeepPart(c, p, n);
        StalePoints(e.delta, points, e.h + 1);
      }
    }
  }

  /** What the decoder does with the whole of a delta. */
  lemma InsertedAt(d: Dec, n: nat, h: nat, rank: nat, delta: nat)
    requires |d.out| == h && rank <= h && d.n <= n < MAX_INT && d.i + delta == Reach(n, d.n, h, rank)
    ensures Insert(d, d.i + delta) == Ok(Dec(Splice(d.out, rank, n), n, rank + 1, Adapt(delta, h + 1, d.i == 0)))
  {
    hide Adapt, Splice;
    DivideBack(n - d.n, h + 1, rank, d.i + delta);
    hide Reach;
  }

  lemma ReachSame(n: int, h: nat, rank: nat)
    ensures Reach(n, n, h, rank) == rank
  {
  }

  lemma KeepPart(c: seq<nat>, p: nat, n: int)
    requires p <= |c|
    ensures |Keep(c[..p], n)| <= |Keep(c, n)|
  {
    assert c == c[..p] + c[p..];
    KeepAppend(c[..p], c[p..], n);
  }

  /** FitUpTo one position on. */
  lemma FitNext(c: seq<nat>, p: nat, n: nat)
    requires p < |c| && n >= INITIAL_N
    ensures FitUpTo(c, p + 1, n) <==> FitUpTo(c, p, n) && (c[p] == n ==> FitsAt(c, p))
  {
    hide FitsAt;
  }

  lemma EmitStep(c: seq<nat>, p: nat, n: nat, e: Enc, b: nat, points: nat, prefix: seq<nat>, digits: seq<nat>,
                 t: Result<Dec>)
    returns (t1: Result<Dec>)
    requires Tracks(c, p, n, e, b, prefix, digits, t) && InPass(c, p, n, e, b, points)
    requires p < |c| && c[p] == n
    ensures Tracks(c, p + 1, n, Emit(e, points, b), b, prefix, digits + EmitDelta(e.delta, 36, e.bias), t1)
    ensures InPass(c, p + 1, n, Emit(e, points, b), b, points)
  {
    hide FitsAt, LeadsTo, EmitDelta, Adapt, FitUpTo, Insert, Largest;
    var v, d0 := EmitDelta(e.delta, 36, e.bias), Initial(Keep(c, INITIAL_N));
    DigitsOnly(e.delta, 36, e.bias);
    HandledStep(c, p, n);
    FitNext(c, p, n);
    assert c[..p + 1] == c[..p] + [n];
    assert |Handled(c, p + 1, n)| == e.h + 1;
    assert prefix + (digits + v) == (prefix + digits) + v;
    match t
    case Ok(d) =>
      InsertsAt(c, p, n, e, b, points, d);
      ReadOne(d, e.delta);
      t1 := if d.i + e.delta <= MAX_INT then Insert(d, d.i + e.delta) else Err(Overflow);
      LeadsOn(digits, d0, d, v, t1);
    case Err(x) =>
      t1 := t;
      DeadEnd(digits, d0, v, x);
  }

  lemma CountStep(c: seq<nat>, p: nat, n: nat, e: Enc, b: nat, points: nat, prefix: seq<nat>, digits: seq<nat>,
                  t: Result<Dec>)
    requires Tracks(c, p, n, e, b, prefix, digits, t) && InPass(c, p, n, e, b, points)
    requires p < |c| && c[p] != n && (c[p] < n ==> e.delta < MAX_INT)
    ensures var e1 := if c[p] < n then e.(delta := e.delta + 1) else e;
            Tracks(c, p + 1, n, e1, b, prefix, digits, t) && InPass(c, p + 1, n, e1, b, points)
  {
    hide FitsAt, LeadsTo, FitUpTo, Largest;
    HandledStep(c, p, n);
    FitNext(c, p, n);
    assert c[..p + 1] == c[..p] + [c[p]];
    assert Keep(c[..p + 1], n) == Keep(c[..p], n) + if c[p] < n then [c[p]] else [] by {
      KeepAppend(c[..p], [c[p]], n);
    }
  }

  // ----- strings that are short enough ------------------------------------------

  ghost predicate Fits(c: seq<nat>) {
    forall j :: 0 <= j < |c| && c[j] >= INITIAL_N ==> FitsAt(c, j)
  }

  /** At most 1927 code points. */
  predicate Short(c: seq<nat>) {
    0x10FF80 * |c| <= MAX_INT
  }

  lemma HandledShort(c: seq<nat>, p: nat, n: nat)
    requires p <= |c|
    ensures |Handled(c, p, n)| <= |c| && |Keep(c[..p], n + 1)| <= |Handled(c, p, n)|
    ensures p < |c| && c[p] == n ==> |Handled(c, p, n)| < |c|
    ensures p < |c| && c[p] < n ==> |Keep(c[..p], n + 1)| < |Handled(c, p, n)|
    ensures n in c && n !in c[..p] ==> |Handled(c, p, n)| < |c|
  {
    if p < |c| { HandledStep(c, p, n); }
    hide Keep;
    if n in c && n !in c[..p] {
      var i :| 0 <= i < |c| && c[i] == n;
      assert forall j :: 0 <= j < p ==> c[j] in c[..p];
      KeepLater(c, p, i, n);
    }
  }

  lemma KeepLater(c: seq<nat>, p: nat, i: nat, n: nat)
    requires p <= i < |c| && c[i] == n
    ensures |Keep(c[p..], n)| < |c| - p
  {
    assert c[p..] == c[p..i] + c[i..];
    KeepAppend(c[p..i], c[i..], n);
    HandledStep(c, i, n);
    hide Keep;
  }

  lemma ProductBelow(a: nat, len: nat, r: nat, size: nat)
    requires a <= 0x10FF7F && r < len <= size && 0x10FF80 * size <= MAX_INT
    ensures a * len + r < MAX_INT
  {
    Times(len, size, a, 0x10FF7F);
  }

  /** Short strings fit. */
  lemma ShortFits(c: seq<nat>)
    requires CodePoints(c) && Short(c)
    ensures Fits(c)
  {
    forall p | 0 <= p < |c| && c[p] >= INITIAL_N
      ensures FitsAt(c, p)
    {
      HandledShort(c, p, c[p]);
      ProductBelow(c[p] - Previous(c, p), |Handled(c, p, c[p])| + 1, |Keep(c[..p], c[p] + 1)|, |c|);
    }
  }

  /** On a short string delta can still be counted up. */
  lemma ShortCount(c: seq<nat>, p: nat, n: nat, e: Enc, b: nat, points: nat, prefix: seq<nat>, digits: seq<nat>,
                   t: Result<Dec>)
    requires CodePoints(c) && Short(c) && Tracks(c, p, n, e, b, prefix, digits, t) && InPass(c, p, n, e, b, points)
    requires p < |c| && c[p] < n && n in c
    ensures e.delta < MAX_INT
  {
    hide LeadsTo, DecodeMain, Fits, FitUpTo, FitsAt, Handled, Keep, NoDelimiter, Largest;
    ShortFits(c);
    Alive(c, p, n, e, b, prefix, digits, t);
    HandledShort(c, p, n);
    if n in c[..p] {
      KeepPart(c, p, n);
    } else {
      ProductBelow(n - t.value.n, e.h + 1, |Keep(c[..p], n + 1)|, |c|);
    }
  }

  /** And the next code point can be reached. */
  lemma ShortSkip(c: seq<nat>, n: nat, e: Enc, b: nat, prefix: seq<nat>, digits: seq<nat>, t: Result<Dec>, m: nat)
    requires CodePoints(c) && Short(c) && Tracks(c, 0, n, e, b, prefix, digits, t)
    requires e.h < |c| && n <= m && m in c
    ensures m - n <= (MAX_INT - e.delta) / (e.h + 1)
  {
    hide LeadsTo, DecodeMain, InStep, Fits, FitUpTo, FitsAt, Handled, Keep, NoDelimiter, Largest;
    ShortFits(c);
    Alive(c, 0, n, e, b, prefix, digits, t);
    AtStart(c, n, e, b, t.value);
    SkipBound(n, m, t.value.n, t.value.i, e.delta, e.h + 1, |c|);
  }

  lemma Alive(c: seq<nat>, p: nat, n: nat, e: Enc, b: nat, prefix: seq<nat>, digits: seq<nat>, t: Result<Dec>)
    requires Fits(c) && Tracks(c, p, n, e, b, prefix, digits, t)
    ensures p <= |c| && t.Ok? && InStep(c, p, n, e, b, t.value)
  {
    hide LeadsTo, FitsAt, InStep, Handled, Keep, DecodeMain, NoDelimiter;
  }

  lemma AtStart(c: seq<nat>, n: nat, e: Enc, b: nat, d: Dec)
    requires InStep(c, 0, n, e, b, d) && n >= INITIAL_N
    ensures INITIAL_N <= d.n <= n && 0 <= d.i && d.i + e.delta == (n - d.n) * (e.h + 1)
  {
    assert c[..0] == [];
    NothingKept(n + 1);
    hide Handled;
  }

  lemma NothingKept(n: int)
    ensures Keep([], n) == []
  {
  }

  lemma SkipBound(n: int, m: int, n0: int, i: nat, delta: int, len: nat, size: nat)
    requires INITIAL_N <= n0 <= n <= m <= 0x10FFFF && 0 < len <= size && 0x10FF80 * size <= MAX_INT
    requires i + delta == (n - n0) * len
    ensures m - n <= (MAX_INT - delta) / len
  {
    ProductBelow(m - n0, len, 0, size);
    assert (m - n) * len + (n - n0) * len == (m - n0) * len;
    QuotientCheck(MAX_INT - delta, len, m - n);
  }

  // ----- one pass ---------------------------------------------------------------

  lemma {:induction false} PassTracks(c: seq<nat>, p: nat, n: nat, e: Enc, b: nat, points: nat,
                                      prefix: seq<nat>, digits: seq<nat>, t: Result<Dec>)
    returns (e1: Enc, digits1: seq<nat>, t1: Result<Dec>)
    requires Tracks(c, p, n, e, b, prefix, digits, t) && InPass(c, p, n, e, b, points)
    requires EncodePass(c, p, n, e, points, b).Ok? || (CodePoints(c) && Short(c) && n in c)
    ensures EncodePass(c, p, n, e, points, b) == Ok(e1)
    ensures Tracks(c, |c|, n, e1, b, prefix, digits1, t1)
    decreases |c| - p
  {
    hide FitsAt, LeadsTo, FitUpTo, Largest, InStep, Emit, Keep;
    if p == |c| {
      e1, digits1, t1 := e, digits, t;
    } else {
      HandledStep(c, p, n);
      if c[p] == n {
        var t2 := EmitStep(c, p, n, e, b, points, prefix, digits, t);
        e1, digits1, t1 := PassTracks(c, p + 1, n, Emit(e, points, b), b, points,
                                      prefix, digits + EmitDelta(e.delta, 36, e.bias), t2);
      } else {
        if c[p] < n && CodePoints(c) && Short(c) && n in c { ShortCount(c, p, n, e, b, points, prefix, digits, t); }
        CountStep(c, p, n, e, b, points, prefix, digits, t);
        e1, digits1, t1 := PassTracks(c, p + 1, n, if c[p] < n then e.(delta := e.delta + 1) else e, b, points,
                                      prefix, digits, t);
      }
    }
  }

  // ----- all passes -------------------------------------------------------------

  /** From one pass to the next: delta takes the decoder to the code point `m`. */
  lemma StartPass(c: seq<nat>, n: nat, e: Enc, b: nat, prefix: seq<nat>, digits: seq<nat>, t: Result<Dec>, m: nat)
    requires Tracks(c, 0, n, e, b, prefix, digits, t) && e.h < |c| && CodePoints(c)
    requires m == Smallest(c, n, MAX_INT) && m - n <= (MAX_INT - e.delta) / (e.h + 1)
    ensures n <= m && m in c && m < MAX_INT && e.h == |Handled(c, 0, m)|
    ensures Tracks(c, 0, m, Skip(e, m - n), b, prefix, digits, t)
    ensures InPass(c, 0, m, Skip(e, m - n), b, e.h + 1)
  {
    HandledEnds(c, n);
    NextPass(c, n, m);
    HandledEnds(c, m);
    LargestSame(c, n, m);
    FitStart(c, n, m);
    QuotientCheck(MAX_INT - e.delta, e.h + 1, m - n);
    hide FitsAt, LeadsTo, FitUpTo, Largest, Smallest;
    assert c[..0] == [];
    if t.Ok? {
      assert (m - t.value.n) * (e.h + 1) == (n - t.value.n) * (e.h + 1) + (m - n) * (e.h + 1);
    }
  }

  lemma FitStart(c: seq<nat>, n: nat, m: nat)
    requires n <= m && forall x :: x in c && n <= x ==> m <= x
    ensures FitUpTo(c, 0, n) <==> FitUpTo(c, 0, m)
  {
    hide FitsAt;
    assert forall j :: 0 <= j < |c| ==> c[j] in c;
  }

  /** `++delta, ++n` at the end of a pass. */
  lemma EndPass(c: seq<nat>, n: nat, e: Enc, b: nat, prefix: seq<nat>, digits: seq<nat>, t: Result<Dec>)
    requires Tracks(c, |c|, n, e, b, prefix, digits, t) && n in c
    ensures Tracks(c, 0, n + 1, e.(delta := e.delta + 1), b, prefix, digits, t)
  {
    HandledEnds(c, n);
    HandledEnds(c, n + 1);
    LargestNext(c, n);
    assert c[..|c|] == c && c[..0] == [];
    assert FitUpTo(c, |c|, n) <==> FitUpTo(c, 0, n + 1) by { hide FitsAt; }
    hide FitsAt, LeadsTo, FitUpTo, Largest;
    if t.Ok? {
      assert (n + 1 - n) * (e.h + 1) == e.h + 1 && (n - n) * (e.h + 1) == 0;
    }
  }

  lemma {:induction false} MainTracks(c: seq<nat>, n: nat, e: Enc, b: nat, prefix: seq<nat>, digits: seq<nat>,
                                      t: Result<Dec>)
    returns (digits1: seq<nat>)
    requires CodePoints(c) && Tracks(c, 0, n, e, b, prefix, digits, t) && e.h == |Keep(c, n)|
    requires EncodeMain(c, n, e, b).Ok? || Short(c)
    ensures EncodeMain(c, n, e, b) == Ok(prefix + digits1) && NoDelimiter(digits1)
    ensures DecodeMain(digits1, Initial(Keep(c, INITIAL_N))) == if Fits(c) then Ok(c) else Err(Overflow)
    decreases |c| - e.h
  {
    hide FitsAt, LeadsTo, FitUpTo, Largest, InStep, Smallest, EncodePass, DecodeMain, InPass, Fits, Handled,
         NoDelimiter, Keep;
    if e.h >= |c| {
      digits1 := digits;
      Finished(c, n, e, b, prefix, digits, t);
    } else {
      var m := Smallest(c, n, MAX_INT);
      NextPass(c, n, m);
      if Short(c) { ShortSkip(c, n, e, b, prefix, digits, t, m); }
      StartPass(c, n, e, b, prefix, digits, t, m);
      var e1, digits2, t2 := PassTracks(c, 0, m, Skip(e, m - n), b, e.h + 1, prefix, digits, t);
      EndPass(c, m, e1, b, prefix, digits2, t2);
      digits1 := MainTracks(c, m + 1, e1.(delta := e1.delta + 1), b, prefix, digits2, t2);
    }
  }

  /** Everything is handled. */
  lemma Finished(c: seq<nat>, n: nat, e: Enc, b: nat, prefix: seq<nat>, digits: seq<nat>, t: Result<Dec>)
    requires CodePoints(c) && Tracks(c, 0, n, e, b, prefix, digits, t) && |c| <= e.h
    ensures DecodeMain(digits, Initial(Keep(c, INITIAL_N))) == if Fits(c) then Ok(c) else Err(Overflow)
  {
    hide FitsAt, Handled, Keep, NoDelimiter, Largest;
    HandledEnds(c, n);
    KeepAll(c, n);
    AllFit(c, n);
    hide Fits, FitUpTo;
    var d0 := Initial(Keep(c, INITIAL_N));
    assert digits + [] == digits;
    assert DecodeMain(digits + [], d0) == Continued(t, []);
  }

  lemma AllFit(c: seq<nat>, n: nat)
    requires |Keep(c, n)| >= |c|
    ensures Fits(c) <==> FitUpTo(c, 0, n)
  {
    hide FitsAt;
    AllKept(c, n);
  }

  lemma {:induction false} AllKept(c: seq<nat>, n: int)
    requires |Keep(c, n)| >= |c|
    ensures forall j :: 0 <= j < |c| ==> c[j] < n
  {
    if c != [] { AllKept(c[1..], n); }
  }

  // ----- the whole string ---------------------------------------------------------

  /** The last delimiter separates the basic code points from the digits. */
  lemma {:induction false} BasicOf(basic: seq<nat>, digits: seq<nat>)
    requires NoDelimiter(digits)
    ensures Basic(basic + [DELIMITER] + digits) == |basic|
    ensures Basic(digits) == 0
    decreases |digits|
  {
    var text := basic + [DELIMITER] + digits;
    if digits != [] {
      var shorter := digits[..|digits| - 1];
      assert text[..|text| - 1] == basic + [DELIMITER] + shorter;
      BasicOf(basic, shorter);
    }
  }

  lemma {:induction false} KeepBelow(c: seq<nat>, n: int)
    ensures forall i :: 0 <= i < |Keep(c, n)| ==> Keep(c, n)[i] < n
  {
    if c != [] { KeepBelow(c[1..], n); }
  }

  lemma {:induction false} NothingInserted(c: seq<nat>)
    ensures FitUpTo(c, 0, INITIAL_N)
    ensures Largest(c, INITIAL_N) == INITIAL_N
  {
    if c != [] { NothingInserted(c[1..]); }
  }

  /** On code points: whatever the encoder returns, the decoder turns it back,
      unless its own overflow check fires, which happens exactly when some code
      point does not fit. */
  lemma PointsRoundTrip(c: seq<nat>)
    requires CodePoints(c) && (EncodePoints(c).Ok? || Short(c))
    ensures EncodePoints(c).Ok?
    ensures DecodePoints(EncodePoints(c).value) == if Fits(c) then Ok(c) else Err(Overflow)
  {
    hide Fits, EncodeMain, DecodeMain, Largest, FitUpTo, FitsAt;
    var basic := Keep(c, INITIAL_N);
    var prefix := basic + if basic == [] then [] else [DELIMITER];
    var e := Enc(prefix, 0, INITIAL_BIAS, |basic|);
    HandledEnds(c, INITIAL_N);
    NothingInserted(c);
    assert c[..0] == [];
    assert prefix + [] == prefix;
    assert LeadsTo([], Initial(basic), Ok(Initial(basic))) by {
      forall rest: seq<nat> ensures DecodeMain([] + rest, Initial(basic)) == DecodeMain(rest, Initial(basic)) {
        assert [] + rest == rest;
      }
    }
    var digits := MainTracks(c, INITIAL_N, e, |basic|, prefix, [], Ok(Initial(basic)));
    BasicOf(basic, digits);
    KeepBelow(c, INITIAL_N);
    var text := prefix + digits;
    if basic == [] {
      assert text == digits;
    } else {
      assert text == basic + [DELIMITER] + digits;
    }
    assert text[..Basic(text)] == basic && text[Start(text)..] == digits;
  }

  lemma JoinPair(high: nat, low: nat)
    requires IsHigh(high) && IsLow(low)
    ensures var c := (high - 0xD800) * 0x400 + (low - 0xDC00) + 0x10000; IsCodePoint(c) && Units(c) == [high, low]
  {
  }

  /** Splitting a string into code points and joining them again. */
  lemma {:induction false} JoinSplit(s: seq<nat>)
    requires IsString(s)
    ensures FromCodePoints(Ucs2Decode(s)) == Ok(s)
    decreases |s|
  {
    if s == [] {
    } else if IsHigh(s[0]) && |s| > 1 && IsLow(s[1]) {
      JoinPair(s[0], s[1]);
      JoinSplit(s[2..]);
      hide IsHigh, IsLow, Units;
      assert Ucs2Decode(s)[1..] == Ucs2Decode(s[2..]);
      assert s == [s[0], s[1]] + s[2..];
    } else {
      JoinSplit(s[1..]);
      hide IsHigh, IsLow;
      assert Ucs2Decode(s)[1..] == Ucs2Decode(s[1..]);
      assert s == [s[0]] + s[1..];
    }
  }

  /** Decoding what encoding returns gives the string back, for every string
      whose code points fit; for the others the decoder reports an overflow. */
  lemma RoundTrip(s: seq<nat>)
    requires IsString(s) && Encode(s).Ok?
    ensures Decode(Encode(s).value) == if Fits(Ucs2Decode(s)) then Ok(s) else Err(Overflow)
  {
    DecodedPoints(s);
    PointsRoundTrip(Ucs2Decode(s));
    JoinSplit(s);
  }

  /** No overflow at all, in either direction, up to 1927 code points. */
  lemma ShortRoundTrip(s: seq<nat>)
    requires IsString(s) && Short(Ucs2Decode(s))
    ensures Encode(s).Ok? && Decode(Encode(s).value) == Ok(s)
  {
    DecodedPoints(s);
    PointsRoundTrip(Ucs2Decode(s));
    ShortFits(Ucs2Decode(s));
    JoinSplit(s);
  }

  // ----- 1927 is the largest such bound -------------------------------------------

  const WITNESS_LAST: nat := 0x10FF70

  /** 1926 times "a", then U+0080 and U+10FF70. */
  function Witness(): (c: seq<nat>)
    ensures |c| == 1928 && c[1926] == INITIAL_N && c[1927] == WITNESS_LAST
    ensures forall j :: 0 <= j < 1926 ==> c[j] == 0x61
  {
    seq(1926, i => 0x61) + [INITIAL_N, WITNESS_LAST]
  }

  /** Counting over smaller code points. */
  lemma {:induction false} PassOver(c: seq<nat>, p: nat, q: nat, n: nat, e: Enc, points: nat, b: nat)
    requires p <= q <= |c| && points > 0 && e.h == |Handled(c, p, n)|
    requires e.delta + q - p <= MAX_INT && forall j :: p <= j < q ==> c[j] < n
    ensures e.h == |Handled(c, q, n)|
    ensures EncodePass(c, p, n, e, points, b) == EncodePass(c, q, n, e.(delta := e.delta + q - p), points, b)
    decreases q - p
  {
    if p < q {
      HandledStep(c, p, n);
      hide Keep, Handled;
      PassOver(c, p + 1, q, n, e.(delta := e.delta + 1), points, b);
    }
  }

  lemma {:induction false} CountKept(c: seq<nat>, n: int, k: nat)
    requires k <= |c| && forall j :: 0 <= j < |c| ==> (c[j] < n <==> j < k)
    ensures |Keep(c, n)| == k
  {
    if c != [] { CountKept(c[1..], n, if k == 0 then 0 else k - 1); }
  }

  lemma {:induction false} LargestIs(c: seq<nat>, n: int)
    requires forall j :: 0 <= j < |c| ==> c[j] <= INITIAL_N || n <= c[j]
    ensures Largest(c, n) == INITIAL_N
  {
    if c != [] { LargestIs(c[1..], n); }
  }

  lemma WitnessPass(c: seq<nat>, n: nat, e: Enc, k: nat, b: nat) returns (e1: Enc)
    requires c == Witness() && k < |c| && c[k] == n && e.h == |Keep(c, n)|
    requires forall j :: 0 <= j < |c| ==> (c[j] < n <==> j < k) && (j > k ==> c[j] > n)
    requires e.delta + k <= MAX_INT
    ensures e.h == |Handled(c, 0, n)| && EncodePass(c, 0, n, e, e.h + 1, b) == Ok(e1)
    ensures e1.delta == 0 && e1.h == |Keep(c, n + 1)|
  {
    HandledEnds(c, n);
    hide Witness, EmitDelta, Adapt;
    PassOver(c, 0, k, n, e, e.h + 1, b);
    HandledStep(c, k, n);
    e1 := Emit(e.(delta := e.delta + k), e.h + 1, b);
    RestPass(c, k + 1, n, e1, e.h + 1, b);
  }

  lemma {:induction false} RestPass(c: seq<nat>, p: nat, n: nat, e: Enc, points: nat, b: nat)
    requires p <= |c| && points > 0 && e.h == |Handled(c, p, n)| && forall j :: p <= j < |c| ==> c[j] > n
    ensures EncodePass(c, p, n, e, points, b) == Ok(e)
    decreases |c| - p
  {
    if p < |c| {
      HandledStep(c, p, n);
      RestPass(c, p + 1, n, e, points, b);
    }
  }

  lemma WitnessEncodes()
    ensures CodePoints(Witness()) && EncodePoints(Witness()).Ok?
  {
    var c := Witness();
    hide Witness, Keep, EmitDelta, Adapt, EncodePass;
    var basic, b := Keep(c, INITIAL_N), 1926;
    CountKept(c, INITIAL_N, 1926);
    CountKept(c, INITIAL_N + 1, 1927);
    CountKept(c, WITNESS_LAST, 1927);
    CountKept(c, WITNESS_LAST + 1, 1928);
    var e := Enc(basic + [DELIMITER], 0, INITIAL_BIAS, 1926);
    assert Smallest(c, INITIAL_N, MAX_INT) == INITIAL_N by { assert c[1926] in c; }
    var e1 := WitnessPass(c, INITIAL_N, Skip(e, 0), 1926, b);
    assert Smallest(c, INITIAL_N + 1, MAX_INT) == WITNESS_LAST by { assert c[1927] in c; }
    var e2 := e1.(delta := 1);
    var e3 := WitnessPass(c, WITNESS_LAST, Skip(e2, WITNESS_LAST - INITIAL_N - 1), 1927, b);
    WitnessMain(c, e, e1, e2, e3, b);
  }

  lemma WitnessMain(c: seq<nat>, e: Enc, e1: Enc, e2: Enc, e3: Enc, b: nat)
    requires |c| == 1928 && CodePoints(c) && e.delta == 0 && e.h == 1926 && |Keep(c, INITIAL_N)| == 1926
    requires |Keep(c, INITIAL_N + 1)| == 1927 && e1.h == 1927 && e2 == e1.(delta := 1)
             && |Keep(c, WITNESS_LAST + 1)| == 1928 == e3.h
    requires Smallest(c, INITIAL_N, MAX_INT) == INITIAL_N && Smallest(c, INITIAL_N + 1, MAX_INT) == WITNESS_LAST
    requires |Handled(c, 0, INITIAL_N)| == 1926 && |Handled(c, 0, WITNESS_LAST)| == 1927
    requires EncodePass(c, 0, INITIAL_N, Skip(e, 0), 1927, b) == Ok(e1)
    requires EncodePass(c, 0, WITNESS_LAST, Skip(e2, WITNESS_LAST - INITIAL_N - 1), 1928, b) == Ok(e3) && e1.delta == 0
    ensures EncodeMain(c, INITIAL_N, e, b).Ok?
  {
    hide Keep, Handled, EncodePass, Smallest;
    assert EncodeMain(c, WITNESS_LAST + 1, e3.(delta := e3.delta + 1), b).Ok?;
    assert EncodeMain(c, INITIAL_N + 1, e2, b).Ok?;
  }

  /** The same as a string: U+10FF70 is a surrogate pair. */
  function WitnessString(): seq<nat> {
    seq(1926, i => 0x61) + [INITIAL_N, 0xDBFF, 0xDF70]
  }

  lemma {:induction false} PlainUnits(a: seq<nat>, b: seq<nat>)
    requires forall i :: 0 <= i < |a| ==> !IsHigh(a[i])
    ensures Ucs2Decode(a + b) == a + Ucs2Decode(b)
    decreases |a|
  {
    if a == [] {
      assert a + b == b;
    } else {
      PlainUnits(a[1..], b);
      assert (a + b)[0] == a[0] && (a + b)[1..] == a[1..] + b;
      assert a == [a[0]] + a[1..];
    }
  }

  lemma WitnessDecoded()
    ensures IsString(WitnessString()) && Ucs2Decode(WitnessString()) == Witness()
  {
    var a := seq(1926, i => 0x61) + [INITIAL_N];
    PlainUnits(a, [0xDBFF, 0xDF70]);
    assert [0xDBFF, 0xDF70][2..] == [];
    assert Ucs2Decode([0xDBFF, 0xDF70]) == [WITNESS_LAST];
    assert WitnessString() == a + [0xDBFF, 0xDF70];
    assert Witness() == a + [WITNESS_LAST];
  }

  /** With one code point more the two overflow checks can disagree: the encoder
      returns a string that the decoder rejects. */
  lemma LongStringsMayFail()
    ensures var s := WitnessString();
            && IsString(s) && |Ucs2Decode(s)| == 1928
            && Encode(s).Ok? && Decode(Encode(s).value) == Err(Overflow)
  {
    WitnessDecoded();
    WitnessEncodes();
    WitnessUnfit(Witness());
    hide Witness, WitnessString, Fits, EncodePoints, Decode, CodePoints, Ucs2Decode;
    RoundTrip(WitnessString());
  }

  lemma WitnessUnfit(c: seq<nat>)
    requires c == Witness()
    ensures !Fits(c)
  {
    hide Witness;
    LargestIs(c, WITNESS_LAST);
    assert WITNESS_LAST !in c[..1927];
    CountKept(c[..1927], WITNESS_LAST + 1, 1927);
    CountKept(c[1927..], WITNESS_LAST, 0);
    hide Keep, Largest;
    assert !FitsAt(c, 1927);
  }
}
