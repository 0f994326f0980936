/** The loops of punycode.js, each proved to compute its function in Punycode. */
module PunycodeLoops {
  import opened Punycode
  import opened Arithmetic

  method Ucs2DecodeLoop(s: seq<nat>) returns (output: seq<nat>)
    ensures output == Ucs2Decode(s)
  {
    hide Ucs2Decode;
    output := [];
    var counter := 0;
    Ucs2Empty();
    assert s[0..] == s;
    while counter < |s|
      invariant counter <= |s|
      invariant output + Ucs2Decode(s[counter..]) == Ucs2Decode(s)
    {
      Ucs2Step(s, counter);
      var value := s[counter];
      counter := counter + 1;
      if IsHigh(value) && counter < |s| {
        var extra := s[counter];
        counter := counter + 1;
        if IsLow(extra) {
          output := output + [(value - 0xD800) * 0x400 + (extra - 0xDC00) + 0x10000];
        } else {
          output := output + [value];
          counter := counter - 1;
        }
      } else {
        output := output + [value];
      }
    }
    assert s[counter..] == [];
  }

  lemma Ucs2Empty()
    ensures Ucs2Decode([]) == []
  {
  }

  /** One round of ucs2decode. */
  lemma Ucs2Step(s: seq<nat>, p: nat)
    requires p < |s|
    ensures Ucs2Decode(s[p..])
         == if IsHigh(s[p]) && p + 1 < |s| && IsLow(s[p + 1])
            then [(s[p] - 0xD800) * 0x400 + (s[p + 1] - 0xDC00) + 0x10000] + Ucs2Decode(s[p + 2..])
            else [s[p]] + Ucs2Decode(s[p + 1..])
  {
    hide IsHigh, IsLow;
    assert s[p..][1..] == s[p + 1..];
    if p + 1 < |s| {
      assert s[p..][2..] == s[p + 2..];
    }
  }

  method AdaptLoop(delta: int, numPoints: nat, firstTime: bool) returns (bias: int)
    requires numPoints > 0
    ensures bias == Adapt(delta, numPoints, firstTime)
  {
    hide Halve;
    var k: nat := 0;
    var d := if firstTime then delta / DAMP else Halve(delta);
    d := d + d / numPoints;
    while d > (BASE - T_MIN) * T_MAX / 2
      invariant Scale(d, k) == Adapt(delta, numPoints, firstTime)
      decreases if d > 455 then d else 0
    {
      d := d / (BASE - T_MIN);
      k := k + 36;
    }
    bias := if d + SKEW == 0 then 0 else k + FloorDiv((BASE - T_MIN + 1) * d, d + SKEW);
  }

  /** The inner loop of decode: one delta, read from `index` on. */
  method ReadDeltaLoop(input: seq<nat>, index0: nat, i0: int, bias: int)
    returns (error: bool, why: Error, i: int, index: nat)
    requires index0 < |input|
    ensures error ==> ReadDelta(input[index0..], i0, 1, 36, bias) == Err(why)
    ensures !error ==> index0 < index <= |input| && ReadDelta(input[index0..], i0, 1, 36, bias)
                       == Ok((i, input[index..]))
  {
    hide BasicToDigit, Threshold;
    error, why, i, index := false, InvalidInput, i0, index0;
    var w: nat, k: nat := 1, 36;
    while true
      invariant index0 <= index <= |input| && w > 0
      invariant ReadDelta(input[index..], i, w, k, bias) == ReadDelta(input[index0..], i0, 1, 36, bias)
      decreases |input| - index
    {
      if index >= |input| {
        return true, InvalidInput, i, index;
      }
      assert input[index..][1..] == input[index + 1..];
      var digit := BasicToDigit(input[index]);
      index := index + 1;
      if digit >= BASE || digit > (MAX_INT - i) / w {
        return true, Overflow, i, index;
      }
      i := i + digit * w;
      var t := Threshold(k, bias);
      if digit < t {
        return;
      }
      if w > MAX_INT / (BASE - t) {
        return true, Overflow, i, index;
      }
      WeightGrows(w, BASE - t);
      w, k := w * (BASE - t), k + 36;
    }
  }

  lemma WeightGrows(w: nat, b: nat)
    requires w > 0 && b > 0
    ensures w * b > 0
  {
  }

  /** decode, up to `String.fromCodePoint`. */
  method DecodeLoop(input: seq<nat>) returns (r: Result<seq<int>>)
    ensures r == DecodePoints(input)
  {
    hide ReadDelta, Basic, Adapt, Splice, Rem;
    var basic := Basic(input);
    var output: seq<int> := [];
    var j := 0;
    while j < basic
      invariant j <= basic && output == input[..j] && forall x :: 0 <= x < j ==> input[x] < 0x80
    {
      if input[j] >= 0x80 {
        return Err(NotBasic);
      }
      output := output + [input[j]];
      j := j + 1;
    }
    var index := if basic > 0 then basic + 1 else 0;
    var i, n, bias := 0, INITIAL_N, INITIAL_BIAS;
    while index < |input|
      invariant index <= |input|
      invariant DecodeMain(input[index..], Dec(output, n, i, bias)) == DecodePoints(input)
    {
      ghost var d := Dec(output, n, i, bias);
      var oldi := i;
      var error, why, i1, index1 := ReadDeltaLoop(input, index, i, bias);
      assert input[index..] != [];
      if error {
        return Err(why);
      }
      i, index := i1, index1;
      var out := |output| + 1;
      bias := AdaptLoop(i - oldi, out, oldi == 0);
      if i / out > MAX_INT - n {
        return Err(Overflow);
      }
      n := n + i / out;
      i := Rem(i, out);
      output := Splice(output, i, n);
      i := i + 1;
    }
    r := Ok(output);
  }

  /** The innermost loop of encode: the digits of one delta. */
  method EmitDeltaLoop(delta: nat, bias: int) returns (digits: seq<nat>)
    ensures digits == EmitDelta(delta, 36, bias)
  {
    hide Threshold, DigitToBasic;
    digits := [];
    var q: nat, k: nat := delta, 36;
    while true
      invariant digits + EmitDelta(q, k, bias) == EmitDelta(delta, 36, bias)
      decreases q
    {
      var t := Threshold(k, bias);
      if q < t {
        break;
      }
      digits := digits + [DigitToBasic(t + (q - t) % (BASE - t))];
      QuotientSmall(q - t, BASE - t);
      q, k := (q - t) / (BASE - t), k + 36;
    }
    digits := digits + [DigitToBasic(q)];
  }

  method SmallestLoop(input: seq<nat>, n: nat) returns (m: int)
    ensures m == Smallest(input, n, MAX_INT)
  {
    m := MAX_INT;
    var p := 0;
    while p < |input|
      invariant p <= |input| && m == Smallest(input[..p], n, MAX_INT)
    {
      assert input[..p + 1][..p] == input[..p];
      if input[p] >= n && input[p] < m {
        m := input[p];
      }
      p := p + 1;
    }
    assert input[..p] == input;
  }

  method BasicLoop(input: seq<nat>) returns (output: seq<nat>)
    ensures output == Keep(input, 0x80)
  {
    output := [];
    var p := 0;
    assert input[0..] == input;
    while p < |input|
      invariant p <= |input| && output + Keep(input[p..], 0x80) == Keep(input, 0x80)
    {
      assert input[p..][1..] == input[p + 1..];
      if input[p] < 0x80 {
        output := output + [input[p]];
      }
      p := p + 1;
    }
  }

  /** The loop of encode that handles all occurrences of `n`. */
  method PassLoop(input: seq<nat>, n: nat, e0: Enc, points: nat, basicLength: nat) returns (r: Result<Enc>)
    requires points > 0 && e0.h == |Keep(input, n)|
    ensures e0.h == |Handled(input, 0, n)| && r == EncodePass(input, 0, n, e0, points, basicLength)
  {
    hide EmitDelta, Adapt, Keep;
    HandledEnds(input, n);
    var output, delta: nat, bias, h: nat := e0.out, e0.delta, e0.bias, e0.h;
    var p := 0;
    while p < |input|
      invariant p <= |input| && h == |Handled(input, p, n)|
      invariant EncodePass(input, p, n, Enc(output, delta, bias, h), points, basicLength)
             == EncodePass(input, 0, n, e0, points, basicLength)
    {
      HandledStep(input, p, n);
      if input[p] < n {
        delta := delta + 1;
        if delta > MAX_INT {
          return Err(Overflow);
        }
      }
      if input[p] == n {
        var digits := EmitDeltaLoop(delta, bias);
        output := output + digits;
        bias := AdaptLoop(delta, points, h == basicLength);
        delta := 0;
        h := h + 1;
      }
      p := p + 1;
    }
    r := Ok(Enc(output, delta, bias, h));
  }

  /** encode, after ucs2decode. */
  method EncodeLoop(input: seq<nat>) returns (r: Result<seq<nat>>)
    requires CodePoints(input)
    ensures r == EncodePoints(input)
  {
    hide Keep, Handled, Smallest, EncodePass;
    var n: nat, delta: nat, bias := INITIAL_N, 0, INITIAL_BIAS;
    var output := BasicLoop(input);
    var basicLength := |output|;
    var h: nat := basicLength;
    if basicLength != 0 {
      output := output + [DELIMITER];
    }
    assert output == Keep(input, 0x80) + if Keep(input, 0x80) == [] then [] else [DELIMITER];
    while h < |input|
      invariant h == |Keep(input, n)|
      invariant EncodeMain(input, n, Enc(output, delta, bias, h), basicLength) == EncodePoints(input)
      decreases |input| - h
    {
      ghost var e := Enc(output, delta, bias, h);
      var m := SmallestLoop(input, n);
      NextPass(input, n, m);
      var points := h + 1;
      if m - n > (MAX_INT - delta) / points {
        return Err(Overflow);
      }
      Product(m - n, points);
      delta := delta + (m - n) * points;
      n := m;
      var pass := PassLoop(input, n, Enc(output, delta, bias, h), points, basicLength);
      if pass.Err? {
        return Err(pass.error);
      }
      output, delta, bias, h := pass.value.out, pass.value.delta, pass.value.bias, pass.value.h;
      delta := delta + 1;
      n := n + 1;
    }
    r := Ok(output);
  }

  method EncodeString(s: seq<nat>) returns (r: Result<seq<nat>>)
    requires IsString(s)
    ensures r == Encode(s)
  {
    DecodedPoints(s);
    var points := Ucs2DecodeLoop(s);
    r := EncodeLoop(points);
  }

  method DecodeString(text: seq<nat>) returns (r: Result<seq<nat>>)
    ensures r == Decode(text)
  {
    var points := DecodeLoop(text);
    match points
    case Ok(cs) => r := FromCodePoints(cs);
    case Err(e) => r := Err(e);
  }
}
