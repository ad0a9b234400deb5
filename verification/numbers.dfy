/** Rust's `str::parse::<i32>()` and `str::parse::<f32>()`, the two number
    parsers the money parsers call. Both read the whole token; neither skips
    whitespace. */
module Numbers {
  import opened Wrappers
  import opened Text

  newtype i32 = x: int | -0x8000_0000 <= x < 0x8000_0000

  const I32_MAX: nat := 0x7FFF_FFFF
  /** The magnitude of i32::MIN. */
  const I32_MIN_MAGNITUDE: nat := 0x8000_0000

  /** The kind carried by `ParseIntError`. */
  datatype IntErrorKind = Empty | InvalidDigit | PosOverflow | NegOverflow

  /** The kind carried by `ParseFloatError`. */
  datatype FloatErrorKind = Empty | Invalid

  /** An `f32` value. Finite values are kept exact: rounding to the nearest
      f32 is not modelled. */
  datatype F32 = Finite(value: real) | Infinity(negative: bool) | NaN

  predicate IsDigit(c: char) {
    '0' <= c <= '9'
  }

  function DigitVal(c: char): nat
    requires IsDigit(c)
  {
    c as int - '0' as int
  }

  predicate AllDigits(s: string) {
    forall i :: 0 <= i < |s| ==> IsDigit(s[i])
  }

  /** The value of a digit string read in base ten, most significant digit
      first. */
  function DigitsValue(s: string): nat
    requires AllDigits(s)
  {
    if s == [] then 0 else DigitsValue(s[..|s| - 1]) * 10 + DigitVal(s[|s| - 1])
  }

  function Pow10(n: nat): (p: nat)
    ensures p >= 1
  {
    if n == 0 then 1 else 10 * Pow10(n - 1)
  }

  /** `x` times 10 raised to an exponent of either sign, one power of ten at
      a time. */
  function ScaleBy(x: real, e: int): real
    decreases if e >= 0 then e else -e
  {
    if e == 0 then x
    else if e > 0 then ScaleBy(x * 10.0, e - 1)
    else ScaleBy(x / 10.0, e + 1)
  }

  /** Scaling by steps agrees with multiplying by the power of ten, or
      dividing by it for a negative exponent. */
  lemma {:induction false} ScaleByPow10(x: real, e: int)
    ensures e >= 0 ==> ScaleBy(x, e) == x * Pow10(e) as real
    ensures e < 0 ==> ScaleBy(x, e) == x / Pow10(-e) as real
    decreases if e >= 0 then e else -e
  {
    if e > 0 {
      ScaleByPow10(x * 10.0, e - 1);
    } else if e < 0 {
      ScaleByPow10(x / 10.0, e + 1);
    }
  }

  /** The digits of a literal, after its optional sign. */
  function Magnitude(t: string): string {
    if |t| > 0 && (t[0] == '+' || t[0] == '-') then t[1..] else t
  }

  /** `v`, or its negation for a literal with a minus sign. */
  function Negated(negative: bool, v: real): real {
    if negative then -v else v
  }

  lemma AllDigitsAppend(a: string, b: string)
    ensures AllDigits(a + b) <==> AllDigits(a) && AllDigits(b)
  {
    if AllDigits(a) && AllDigits(b) {
      assert forall i :: |a| <= i < |a + b| ==> (a + b)[i] == b[i - |a|];
    }
    if AllDigits(a + b) {
      assert forall i :: 0 <= i < |a| ==> a[i] == (a + b)[i];
      assert forall i :: 0 <= i < |b| ==> b[i] == (a + b)[|a| + i];
    }
  }

  /** Appending digits never decreases the value. */
  lemma {:induction false} DigitsValueGrows(p: string, ds: string)
    requires AllDigits(p) && AllDigits(ds)
    ensures AllDigits(p + ds) && DigitsValue(p) <= DigitsValue(p + ds)
    decreases |ds|
  {
    AllDigitsAppend(p, ds);
    if ds == [] {
      assert p + ds == p;
    } else {
      var init := ds[..|ds| - 1];
      assert AllDigits(init);
      DigitsValueGrows(p, init);
      var whole := p + ds;
      assert whole[..|whole| - 1] == p + init;
      assert DigitsValue(whole) == DigitsValue(p + init) * 10 + DigitVal(whole[|whole| - 1]);
    }
  }

  // ---------------------------------------------------------------- i32

  /** The digit loop of `i32::from_str_radix`: digits are folded into `acc`
      left to right; the first non-digit fails with InvalidDigit, and the
      first step whose magnitude exceeds `limit` fails with `overflow`. */
  function Accumulate(ds: string, acc: nat, limit: nat, overflow: IntErrorKind): (r: Result<nat, IntErrorKind>)
    requires acc <= limit
    ensures r.Ok? ==> acc <= r.value <= limit
    ensures r.Err? ==> r.error == InvalidDigit || r.error == overflow
  {
    if ds == [] then Ok(acc)
    else if !IsDigit(ds[0]) then Err(InvalidDigit)
    else
      var next := acc * 10 + DigitVal(ds[0]);
      if next > limit then Err(overflow) else Accumulate(ds[1..], next, limit, overflow)
  }

  /** `s.parse::<i32>()`: an optional `+` or `-`, then decimal digits; a lone
      sign is an invalid digit, and a value outside i32 overflows towards
      its sign. */
  function ParseI32(t: string): Result<i32, IntErrorKind> {
    if t == [] then Err(IntErrorKind.Empty)
    else if (t[0] == '+' || t[0] == '-') && |t| == 1 then Err(InvalidDigit)
    else if t[0] == '-' then
      var m :- Accumulate(t[1..], 0, I32_MIN_MAGNITUDE, NegOverflow);
      Ok(-(m as int) as i32)
    else
      var m :- Accumulate(if t[0] == '+' then t[1..] else t, 0, I32_MAX, PosOverflow);
      Ok(m as i32)
  }

  /** An optional sign followed by at least one decimal digit. */
  predicate IsIntLiteral(t: string) {
    |Magnitude(t)| > 0 && AllDigits(Magnitude(t))
  }

  /** The mathematical value of an integer literal. */
  function LiteralValue(t: string): int
    requires IsIntLiteral(t)
  {
    if t[0] == '-' then -(DigitsValue(Magnitude(t)) as int) else DigitsValue(Magnitude(t))
  }

  predicate InI32(v: int) {
    -0x8000_0000 <= v < 0x8000_0000
  }

  /** Folding digits `ds` into the value of the digits `p` already read gives
      the value of `p + ds`, unless a step passes `limit`. */
  lemma {:induction false} AccumulateValue(p: string, ds: string, limit: nat, overflow: IntErrorKind)
    requires AllDigits(p) && DigitsValue(p) <= limit
    ensures Accumulate(ds, DigitsValue(p), limit, overflow).Ok?
      <==> AllDigits(p + ds) && DigitsValue(p + ds) <= limit
    ensures Accumulate(ds, DigitsValue(p), limit, overflow).Ok?
      ==> Accumulate(ds, DigitsValue(p), limit, overflow).value == DigitsValue(p + ds)
    ensures AllDigits(p + ds) && DigitsValue(p + ds) > limit
      ==> Accumulate(ds, DigitsValue(p), limit, overflow) == Err(overflow)
    decreases |ds|
  {
    var r := Accumulate(ds, DigitsValue(p), limit, overflow);
    AllDigitsAppend(p, ds);
    if ds == [] {
      assert p + ds == p;
    } else if !IsDigit(ds[0]) {
      assert r == Err(InvalidDigit);
      assert !AllDigits(ds);
    } else {
      var p' := p + [ds[0]];
      assert p'[..|p'| - 1] == p;
      assert DigitsValue(p') == DigitsValue(p) * 10 + DigitVal(ds[0]);
      assert AllDigits(p') by {
        AllDigitsAppend(p, [ds[0]]);
      }
      assert p' + ds[1..] == p + ds;
      AllDigitsAppend(p', ds[1..]);
      if DigitsValue(p') <= limit {
        assert r == Accumulate(ds[1..], DigitsValue(p'), limit, overflow);
        AccumulateValue(p', ds[1..], limit, overflow);
      } else {
        assert r == Err(overflow);
        if AllDigits(p + ds) {
          DigitsValueGrows(p', ds[1..]);
        }
      }
    }
  }


  /** `parse::<i32>` accepts exactly the integer literals whose value fits in
      i32 and returns that value; it reports the empty string as Empty, and
      an out-of-range literal as an overflow in the direction of its sign. */
  lemma ParseI32Spec(t: string)
    ensures ParseI32(t).Ok? <==> IsIntLiteral(t) && InI32(LiteralValue(t))
    ensures ParseI32(t).Ok? ==> ParseI32(t).value as int == LiteralValue(t)
    ensures ParseI32(t) == Err(IntErrorKind.Empty) <==> t == []
    ensures IsIntLiteral(t) && !InI32(LiteralValue(t)) ==>
      ParseI32(t) == Err(if t[0] == '-' then NegOverflow else PosOverflow)
  {
    if t != [] && !((t[0] == '+' || t[0] == '-') && |t| == 1) {
      var ds := Magnitude(t);
      assert [] + ds == ds;
      if t[0] == '-' {
        AccumulateValue([], ds, I32_MIN_MAGNITUDE, NegOverflow);
      } else {
        AccumulateValue([], ds, I32_MAX, PosOverflow);
      }
    }
  }

  // ---------------------------------------------------------------- f32

  /** Length of the longest prefix of `s` made of decimal digits. */
  function DigitRun(s: string): (n: nat)
    ensures n <= |s|
    ensures n < |s| ==> !IsDigit(s[n])
  {
    if s == [] || !IsDigit(s[0]) then 0 else 1 + DigitRun(s[1..])
  }

  lemma {:induction false} DigitRunPrefix(s: string)
    ensures AllDigits(s[..DigitRun(s)])
    ensures AllDigits(s) ==> DigitRun(s) == |s|
  {
    if s != [] && IsDigit(s[0]) {
      DigitRunPrefix(s[1..]);
      assert forall i :: 1 <= i < DigitRun(s) ==> s[..DigitRun(s)][i] == s[1..][..DigitRun(s[1..])][i - 1];
      assert forall i :: 1 <= i < |s| ==> s[1..][i - 1] == s[i];
    }
  }

  lemma {:induction false} DigitRunAppend(a: string, b: string)
    requires AllDigits(a)
    requires b == [] || !IsDigit(b[0])
    ensures DigitRun(a + b) == |a|
  {
    if a == [] {
      assert a + b == b;
    } else {
      assert (a + b)[1..] == a[1..] + b;
      DigitRunAppend(a[1..], b);
    }
  }

  /** The leading digits of `s` and the text after them. */
  function SplitDigits(s: string): (r: (string, string))
    ensures AllDigits(r.0) && r.0 + r.1 == s
    ensures r.1 == [] || !IsDigit(r.1[0])
  {
    DigitRunPrefix(s);
    (s[..DigitRun(s)], s[DigitRun(s)..])
  }

  /** A decimal number split at its parts: the integer digits, the fraction
      digits (after a point, when there is one), and the text after them. */
  datatype Mantissa = Mantissa(intPart: string, fracPart: string, rest: string)

  function SplitMantissa(s: string): (m: Mantissa)
    ensures AllDigits(m.intPart) && AllDigits(m.fracPart)
  {
    var (intPart, afterInt) := SplitDigits(s);
    if afterInt != [] && afterInt[0] == '.' then
      var (fracPart, afterFrac) := SplitDigits(afterInt[1..]);
      Mantissa(intPart, fracPart, afterFrac)
    else
      Mantissa(intPart, [], afterInt)
  }

  /** The value of `intPart.fracPart`. */
  function MantissaValue(m: Mantissa): real
    requires AllDigits(m.intPart) && AllDigits(m.fracPart)
  {
    DigitsValue(m.intPart) as real + DigitsValue(m.fracPart) as real / Pow10(|m.fracPart|) as real
  }

  /** The exponent after `e`: an optional sign and at least one digit,
      filling the rest of the token. */
  function ParseExponent(s: string): Option<int> {
    var digits := Magnitude(s);
    if |digits| > 0 && AllDigits(digits) then
      Some(if s[0] == '-' then -(DigitsValue(digits) as int) else DigitsValue(digits))
    else None
  }

  /** The decimal form `digits [. digits] [(e|E) [sign] digits]` with at least
      one digit before the exponent, covering all of `s`, and its value. */
  function ParseDecimal(s: string): Option<real> {
    var m := SplitMantissa(s);
    if |m.intPart| + |m.fracPart| == 0 then None
    else if m.rest == [] then Some(MantissaValue(m))
    else if m.rest[0] == 'e' || m.rest[0] == 'E' then
      match ParseExponent(m.rest[1..])
      case Some(e) => Some(ScaleBy(MantissaValue(m), e))
      case None => None
    else None
  }

  /** `s.parse::<f32>()`: an optional sign, then either a decimal number or
      one of the words `inf`, `infinity`, `nan` in any letter case. The empty
      string is reported as Empty and every other failure as Invalid. */
  function ParseF32(t: string): (r: Result<F32, FloatErrorKind>)
    ensures r == Err(FloatErrorKind.Empty) <==> t == []
  {
    if t == [] then Err(FloatErrorKind.Empty)
    else
      var negative := t[0] == '-';
      var body := Magnitude(t);
      if body == [] then Err(Invalid)
      else
        match ParseDecimal(body)
        case Some(v) => Ok(Finite(Negated(negative, v)))
        case None => ParseSpecialWord(body, negative)
  }

  /** The words float parsing accepts in place of a number: `inf` and
      `infinity` for an infinity of the literal's sign, and `nan`, in any
      letter case. */
  function ParseSpecialWord(body: string, negative: bool): Result<F32, FloatErrorKind> {
    if EqualsIgnoreCase(body, "inf") || EqualsIgnoreCase(body, "infinity") then Ok(Infinity(negative))
    else if EqualsIgnoreCase(body, "nan") then Ok(NaN)
    else Err(Invalid)
  }

  lemma SplitDigitsOf(ds: string, rest: string)
    requires AllDigits(ds)
    requires rest == [] || !IsDigit(rest[0])
    ensures SplitDigits(ds + rest) == (ds, rest)
  {
    DigitRunAppend(ds, rest);
    assert (ds + rest)[..|ds|] == ds;
    assert (ds + rest)[|ds|..] == rest;
  }

  /** `ip` or `ip.fp` with digit strings, followed by text that cannot
      continue the number, splits into exactly those parts. */
  lemma SplitMantissaOf(ip: string, fp: string, point: bool, rest: string)
    requires AllDigits(ip) && AllDigits(fp)
    requires !point ==> fp == []
    requires rest == [] || (!IsDigit(rest[0]) && (!point ==> rest[0] != '.'))
    ensures SplitMantissa((if point then ip + "." + fp else ip) + rest) == Mantissa(ip, fp, rest)
  {
    if point {
      var text := ip + "." + fp + rest;
      assert text == ip + ("." + fp + rest);
      SplitDigitsOf(ip, "." + fp + rest);
      assert ("." + fp + rest)[1..] == fp + rest;
      SplitDigitsOf(fp, rest);
    } else {
      SplitDigitsOf(ip, rest);
    }
  }

  /** The text `ip` or `ip.fp`. */
  function DecimalText(ip: string, fp: string, point: bool): string {
    if point then ip + "." + fp else ip
  }

  /** An optional sign in front of text that does not itself start with a
      sign is read as that sign. */
  lemma SignedText(sign: string, body: string)
    requires sign == "" || sign == "+" || sign == "-"
    requires |body| > 0 && body[0] != '+' && body[0] != '-'
    ensures |sign + body| > 0 && Magnitude(sign + body) == body
    ensures (sign + body)[0] == '-' <==> sign == "-"
  {
    if sign == "" {
      assert sign + body == body;
    } else {
      assert (sign + body)[1..] == body;
    }
  }

  /** A signed decimal number parses to its value, negated for `-`. */
  lemma ParseF32Signed(sign: string, body: string, v: real)
    requires sign == "" || sign == "+" || sign == "-"
    requires |body| > 0 && body[0] != '+' && body[0] != '-'
    requires ParseDecimal(body) == Some(v)
    ensures ParseF32(sign + body) == Ok(Finite(Negated(sign == "-", v)))
  {
    SignedText(sign, body);
  }

  lemma DecimalTextStart(ip: string, fp: string, point: bool)
    requires AllDigits(ip) && |ip| + |fp| > 0
    requires !point ==> fp == []
    ensures |DecimalText(ip, fp, point)| > 0
    ensures DecimalText(ip, fp, point)[0] == '.' || IsDigit(DecimalText(ip, fp, point)[0])
  {
    if |ip| > 0 {
      assert DecimalText(ip, fp, point)[0] == ip[0];
    }
  }

  /** A literal `[sign] ip [. fp]` made of digit strings, with at least one
      digit, parses to its exact value. */
  lemma ParseF32Decimal(sign: string, ip: string, fp: string, point: bool)
    requires sign == "" || sign == "+" || sign == "-"
    requires AllDigits(ip) && AllDigits(fp) && |ip| + |fp| > 0
    requires !point ==> fp == []
    ensures
      var v := MantissaValue(Mantissa(ip, fp, []));
      ParseF32(sign + DecimalText(ip, fp, point)) == Ok(Finite(Negated(sign == "-", v)))
  {
    var body := DecimalText(ip, fp, point);
    DecimalTextStart(ip, fp, point);
    SplitMantissaOf(ip, fp, point, []);
    assert body + [] == body;
    ParseF32Signed(sign, body, MantissaValue(Mantissa(ip, fp, [])));
  }


  /** The value of the digits `ds`, negated when `sign` is "-". */
  function SignedValue(sign: string, ds: string): int
    requires AllDigits(ds)
  {
    if sign == "-" then -(DigitsValue(ds) as int) else DigitsValue(ds)
  }

  /** The exponent part `[sign] digits` has the value of its digits, negated
      for `-`. */
  lemma ParseExponentOf(esign: string, eds: string)
    requires esign == "" || esign == "+" || esign == "-"
    requires AllDigits(eds) && |eds| > 0
    ensures ParseExponent(esign + eds) == Some(SignedValue(esign, eds))
  {
    assert eds[0] != '+' && eds[0] != '-' by {
      assert IsDigit(eds[0]);
    }
    SignedText(esign, eds);
  }

  /** The exponent suffix `(e|E) [sign] digits` of a float literal. */
  function ExponentText(marker: char, esign: string, eds: string): string {
    [marker] + (esign + eds)
  }

  /** The first character and the rest of `[c] + x`. */
  lemma ConsParts(c: char, x: string)
    ensures ([c] + x)[0] == c && ([c] + x)[1..] == x
  {
  }

  /** A mantissa followed by an exponent marker and a valid exponent is a
      decimal literal worth the mantissa scaled by that exponent. */
  lemma ParseDecimalWithExponent(body: string, m: Mantissa, marker: char, exponent: string, e: int)
    requires |m.intPart| + |m.fracPart| > 0
    requires SplitMantissa(body) == Mantissa(m.intPart, m.fracPart, [marker] + exponent)
    requires marker == 'e' || marker == 'E'
    requires ParseExponent(exponent) == Some(e)
    ensures ParseDecimal(body) == Some(ScaleBy(MantissaValue(m), e))
  {
    var split := SplitMantissa(body);
    assert split.rest[1..] == exponent;
    assert MantissaValue(split) == MantissaValue(m);
  }

  /** The unsigned body `ip [. fp] (e|E) [esign] eds` of a literal with an
      exponent is a decimal worth its mantissa scaled by its exponent. */
  lemma ParseDecimalExponent(ip: string, fp: string, point: bool, marker: char, esign: string, eds: string)
    requires AllDigits(ip) && AllDigits(fp) && |ip| + |fp| > 0
    requires !point ==> fp == []
    requires marker == 'e' || marker == 'E'
    requires esign == "" || esign == "+" || esign == "-"
    requires AllDigits(eds) && |eds| > 0
    ensures var body := DecimalText(ip, fp, point) + ExponentText(marker, esign, eds);
      && |body| > 0 && body[0] != '+' && body[0] != '-'
      && ParseDecimal(body) == Some(ScaleBy(MantissaValue(Mantissa(ip, fp, [])), SignedValue(esign, eds)))
  {
    var exponent := esign + eds;
    var exponentText := ExponentText(marker, esign, eds);
    var body := DecimalText(ip, fp, point) + exponentText;
    DecimalTextStart(ip, fp, point);
    ConsParts(marker, exponent);
    SplitMantissaOf(ip, fp, point, exponentText);
    ParseExponentOf(esign, eds);
    assert SplitMantissa(body) == Mantissa(ip, fp, exponentText);
    ParseDecimalWithExponent(body, Mantissa(ip, fp, []), marker, exponent, SignedValue(esign, eds));
    assert body[0] == DecimalText(ip, fp, point)[0];
  }

  /** A literal with an exponent, `[sign] ip [. fp] (e|E) [esign] eds`, parses
      to its mantissa times ten to the exponent. */
  lemma ParseF32Exponent(sign: string, ip: string, fp: string, point: bool, marker: char, esign: string, eds: string)
    requires sign == "" || sign == "+" || sign == "-"
    requires AllDigits(ip) && AllDigits(fp) && |ip| + |fp| > 0
    requires !point ==> fp == []
    requires marker == 'e' || marker == 'E'
    requires esign == "" || esign == "+" || esign == "-"
    requires AllDigits(eds) && |eds| > 0
    ensures ParseF32(sign + (DecimalText(ip, fp, point) + ExponentText(marker, esign, eds)))
      == Ok(Finite(Negated(sign == "-", ScaleBy(MantissaValue(Mantissa(ip, fp, [])), SignedValue(esign, eds)))))
  {
    var body := DecimalText(ip, fp, point) + ExponentText(marker, esign, eds);
    var v := ScaleBy(MantissaValue(Mantissa(ip, fp, [])), SignedValue(esign, eds));
    ParseDecimalExponent(ip, fp, point, marker, esign, eds);
    assert ParseDecimal(body) == Some(v);
    ParseF32Signed(sign, body, v);
  }

  /** The words `inf`, `infinity` and `nan`, in any letter case and after an
      optional sign, parse to an infinity of that sign or to NaN. */
  lemma ParseF32Words(sign: string, w: string)
    requires sign == "" || sign == "+" || sign == "-"
    requires EqualsIgnoreCase(w, "inf") || EqualsIgnoreCase(w, "infinity") || EqualsIgnoreCase(w, "nan")
    ensures ParseF32(sign + w) ==
      if EqualsIgnoreCase(w, "nan") then Ok(NaN) else Ok(Infinity(sign == "-"))
  {
    assert Lower(w[0]) == 'i' || Lower(w[0]) == 'n';
    assert w[0] != '+' && w[0] != '-' && w[0] != '.' && !IsDigit(w[0]);
    SignedText(sign, w);
    SplitDigitsOf([], w);
    assert [] + w == w;
    assert SplitMantissa(w) == Mantissa([], [], w);
    assert ParseDecimal(w) == None;
    assert !(EqualsIgnoreCase(w, "nan") && (EqualsIgnoreCase(w, "inf") || EqualsIgnoreCase(w, "infinity"))) by {
      if EqualsIgnoreCase(w, "nan") {
        assert Lower(w[0]) == 'n';
      }
    }
  }

  /** A mantissa without fraction digits is worth its integer digits. */
  lemma IntegerMantissa(ds: string)
    requires AllDigits(ds)
    ensures MantissaValue(Mantissa(ds, [], [])) == DigitsValue(ds) as real
  {
    assert DigitsValue([]) == 0;
  }

  /** A plain run of digits parses to its value. */
  lemma ParseF32OfDigits(ds: string)
    requires |ds| > 0 && AllDigits(ds)
    ensures ParseF32(ds) == Ok(Finite(DigitsValue(ds) as real))
  {
    ParseF32Decimal("", ds, [], false);
    assert "" + DecimalText(ds, [], false) == ds;
    IntegerMantissa(ds);
  }

  /** Every string `parse::<i32>` accepts, `parse::<f32>` accepts too, with
      the same value. */
  lemma ParseF32OfI32(t: string)
    requires ParseI32(t).Ok?
    ensures ParseF32(t) == Ok(Finite(ParseI32(t).value as real))
  {
    ParseI32Spec(t);
    var ds := Magnitude(t);
    var sign := if t[0] == '+' || t[0] == '-' then t[..1] else "";
    assert t == sign + DecimalText(ds, [], false);
    ParseF32Decimal(sign, ds, [], false);
    var v := MantissaValue(Mantissa(ds, [], []));
    IntegerMantissa(ds);
    assert sign == "-" <==> t[0] == '-';
    var n := ParseI32(t).value as int;
    assert n == LiteralValue(t);
    assert Negated(sign == "-", v) == n as real;
  }
}
