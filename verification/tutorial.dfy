/** The five tutorial parsers: the same "amount currency" input read with
    progressively more idiomatic error handling. Each returns the currency
    part verbatim; the last two read the amount as f32 and report failures
    as a `MoneyError`. */
module Tutorial {
  import opened Wrappers
  import opened Text
  import opened Numbers
  import opened MoneyErrors
  import Money

  /** The value `unidiomatic_parse_money` returns for an amount that does
      not parse. */
  const INVALID_SENTINEL: (i32, string) := (-1, "invalid")

  const EXPECTING_AMOUNT_AND_CURRENCY: string := "Expecting amount and currency"

  /** The first two parsers index `parts[0]` and then, once the amount is
      read, `parts[1]`; they panic when either index is missing. This is the
      input on which neither index panics. */
  predicate CanIndexParts(input: string) {
    var parts := Tokens(input);
    |parts| >= 1 && (ParseI32(parts[0]).Ok? ==> |parts| >= 2)
  }

  /** `unidiomatic_parse_money`: an amount that does not parse as i32 gives
      the sentinel (-1, "invalid"); otherwise the amount and the second part.
      Parts after the second are ignored. */
  function UnidiomaticParseMoney(input: string): (i32, string)
    requires CanIndexParts(input)
  {
    var parts := Tokens(input);
    var maybeAmount := ParseI32(parts[0]);
    if maybeAmount.Err? then INVALID_SENTINEL
    else (maybeAmount.value, parts[1])
  }

  /** `more_idiomatic_parse_money`: `unwrap` panics unless there are two
      parts and the first parses as i32. */
  function MoreIdiomaticParseMoney(input: string): (i32, string)
    requires |Tokens(input)| >= 2 && ParseI32(Tokens(input)[0]).Ok?
  {
    var parts := Tokens(input);
    (ParseI32(parts[0]).value, parts[1])
  }

  /** `kind_of_idiomatic_parse_money`: the amount's `ParseIntError` is
      returned with `?` before the second part is indexed. */
  function KindOfIdiomaticParseMoney(input: string): Result<(i32, string), IntErrorKind>
    requires CanIndexParts(input)
  {
    var parts := Tokens(input);
    var maybeAmount :- ParseI32(parts[0]);
    Ok((maybeAmount, parts[1]))
  }

  /** `parse_money_with_custome_error_type`: a count of parts other than two
      is a formatting error; otherwise the amount is read as f32, a failure
      becoming `ParseAmount` through `From`. */
  function ParseMoneyWithCustomErrorType(input: string): Result<(F32, string), MoneyError> {
    var parts := Tokens(input);
    if |parts| != 2 then
      Err(ParseFormatting(EXPECTING_AMOUNT_AND_CURRENCY))
    else
      var (amount, currency) := (parts[0], parts[1]);
      var value :- LiftAmount(ParseF32(amount));
      Ok((value, currency))
  }

  /** `parse_money_with_slice_pattern`: the same, written as a match of the
      parts against the slice pattern `[amount, currency]`, with the
      formatting message `Money::from_str` uses. */
  function ParseMoneyWithSlicePattern(input: string): Result<(F32, string), MoneyError> {
    SlicePatternOfParts(Tokens(input))
  }

  /** The slice-pattern match on the parts themselves. */
  function SlicePatternOfParts(parts: seq<string>): Result<(F32, string), MoneyError> {
    if |parts| == 2 then
      var value :- LiftAmount(ParseF32(parts[0]));
      Ok((value, parts[1]))
    else
      Err(ParseFormatting(Money.EXPECTED_AMOUNT_AND_CURRENCY))
  }

  // ---------------------------------------------------------------- i32 parsers

  /** `kind_of_idiomatic_parse_money` succeeds exactly when the first part is
      an integer literal within i32, and then returns its value and the
      second part unchanged; otherwise it returns the i32 parser's error. */
  lemma KindOfIdiomaticSpec(input: string)
    requires CanIndexParts(input)
    ensures var parts := Tokens(input);
      var r := KindOfIdiomaticParseMoney(input);
      && (r.Ok? <==> IsIntLiteral(parts[0]) && InI32(LiteralValue(parts[0])))
      && (r.Ok? ==> r.value.0 as int == LiteralValue(parts[0]) && r.value.1 == parts[1])
      && (r.Err? ==> r.error != IntErrorKind.Empty)
  {
    var parts := Tokens(input);
    TokensAreTokens(input);
    assert parts[0] != [];
    ParseI32Spec(parts[0]);
  }

  /** The unidiomatic parser is the `Result`-returning one with its error
      collapsed into the sentinel. */
  lemma UnidiomaticIsCollapsedResult(input: string)
    requires CanIndexParts(input)
    ensures UnidiomaticParseMoney(input) ==
      match KindOfIdiomaticParseMoney(input)
      case Ok(pair) => pair
      case Err(_) => INVALID_SENTINEL
  {
  }

  /** Where `unwrap` does not panic, it returns what `?` would have passed
      on. */
  lemma MoreIdiomaticIsUnwrappedResult(input: string)
    requires |Tokens(input)| >= 2 && ParseI32(Tokens(input)[0]).Ok?
    ensures KindOfIdiomaticParseMoney(input) == Ok(MoreIdiomaticParseMoney(input))
  {
  }

  /** The sentinel is ambiguous: the input "-1 invalid" and an input whose
      amount does not parse give the same answer. */
  lemma SentinelIsAmbiguous()
    ensures CanIndexParts("-1 invalid") && CanIndexParts("x y")
    ensures UnidiomaticParseMoney("-1 invalid") == UnidiomaticParseMoney("x y")
    ensures KindOfIdiomaticParseMoney("-1 invalid") != KindOfIdiomaticParseMoney("x y")
  {
    MinusOneInvalidParts();
    XyParts();
    MinusOneParses();
    XDoesNotParse();
  }

  lemma MinusOneInvalidParts()
    ensures Tokens("-1 invalid") == ["-1", "invalid"]
  {
    assert IsToken("-1") && IsToken("invalid");
    assert "-1 invalid" == "-1" + " " + "invalid";
    TokensOfPair("-1", "invalid");
  }

  lemma XyParts()
    ensures Tokens("x y") == ["x", "y"]
  {
    assert IsToken("x") && IsToken("y");
    assert "x y" == "x" + " " + "y";
    TokensOfPair("x", "y");
  }

  lemma MinusOneParses()
    ensures ParseI32("-1") == Ok(-1)
  {
    ParseI32Spec("-1");
    assert Magnitude("-1") == "1";
    assert DigitsValue("1") == 1 by {
      assert "1"[..0] == "";
    }
  }

  lemma XDoesNotParse()
    ensures ParseI32("x") == Err(InvalidDigit)
  {
  }

  // ---------------------------------------------------------------- f32 parsers

  /** The two f32 parsers differ only in the text of the formatting
      error. */
  lemma CustomErrorAndSlicePatternAgree(input: string)
    ensures ParseMoneyWithCustomErrorType(input) ==
      ParseMoneyWithSlicePattern(input).MapErr(
        (e: MoneyError) => if e.ParseFormatting? then ParseFormatting(EXPECTING_AMOUNT_AND_CURRENCY) else e)
  {
  }

  /** The slice-pattern match by cases: two parts whose first is an f32
      literal give that amount and the second part verbatim; two parts with a
      bad, non-empty amount give an invalid-literal amount error; anything
      else is a formatting error. */
  lemma SlicePatternOfPartsSpec(parts: seq<string>)
    requires |parts| == 2 ==> parts[0] != []
    ensures var r := SlicePatternOfParts(parts);
      && (r == Err(ParseFormatting(Money.EXPECTED_AMOUNT_AND_CURRENCY)) <==> |parts| != 2)
      && (r == Err(ParseAmount(Invalid)) <==> |parts| == 2 && ParseF32(parts[0]).Err?)
      && (r.Ok? <==> |parts| == 2 && ParseF32(parts[0]).Ok?)
      && (r.Ok? ==> r.value == (ParseF32(parts[0]).value, parts[1]))
  {
    if |parts| == 2 {
      assert ParseF32(parts[0]) != Err(FloatErrorKind.Empty);
    }
  }

  /** The slice-pattern parser's outcome by the parts of its input: the
      amount error is never the empty-string one, because a part is never
      empty. */
  lemma SlicePatternSpec(input: string)
    ensures var parts := Tokens(input);
      var r := ParseMoneyWithSlicePattern(input);
      && (r == Err(ParseFormatting(Money.EXPECTED_AMOUNT_AND_CURRENCY)) <==> |parts| != 2)
      && (r == Err(ParseAmount(Invalid)) <==> |parts| == 2 && ParseF32(parts[0]).Err?)
      && (r.Ok? <==> |parts| == 2 && ParseF32(parts[0]).Ok?)
      && (r.Ok? ==> r.value == (ParseF32(parts[0]).value, parts[1]))
  {
    var parts := Tokens(input);
    assert |parts| == 2 ==> parts[0] != [] by {
      TokensAreTokens(input);
    }
    SlicePatternOfPartsSpec(parts);
  }

  /** `Money::from_str` is the slice-pattern parser followed by a currency
      lookup of the second part: they fail alike, and where the slice
      pattern succeeds the money parser succeeds exactly when the currency is
      known, with the same amount. */
  lemma MoneyFromStrExtendsSlicePattern(input: string)
    ensures var r := ParseMoneyWithSlicePattern(input);
      && (r.Err? ==> Money.FromStr(input) == Err(r.error))
      && (r.Ok? ==>
            var lookup := Money.CurrencyFromStr(r.value.1);
            Money.FromStr(input) ==
              if lookup.Ok? then Ok(Money.Money(r.value.0, lookup.value)) else Err(lookup.error))
  {
  }

  /** An amount the i32 parsers accept is accepted by the f32 parsers with
      the same value, when there are exactly two parts. */
  lemma IntegerAmountIsFloatAmount(input: string)
    requires |Tokens(input)| == 2 && CanIndexParts(input)
    requires KindOfIdiomaticParseMoney(input).Ok?
    ensures ParseMoneyWithSlicePattern(input) ==
      Ok((Finite(KindOfIdiomaticParseMoney(input).value.0 as real), KindOfIdiomaticParseMoney(input).value.1))
  {
    ParseF32OfI32(Tokens(input)[0]);
  }

  // ---------------------------------------------------------------- demo

  lemma TwentyEuroParts()
    ensures Tokens("20 Euro") == ["20", "Euro"]
  {
    assert IsToken("20") && IsToken("Euro");
    assert "20 Euro" == "20" + " " + "Euro";
    TokensOfPair("20", "Euro");
  }

  lemma FortyFiveDollarParts()
    ensures Tokens("45 Dollar") == ["45", "Dollar"]
  {
    assert IsToken("45") && IsToken("Dollar");
    assert "45 Dollar" == "45" + " " + "Dollar";
    TokensOfPair("45", "Dollar");
  }

  lemma FiftyFiveDotFiveDollarParts()
    ensures Tokens("55.5 Dollar") == ["55.5", "Dollar"]
  {
    assert IsToken("55.5") && IsToken("Dollar");
    assert "55.5 Dollar" == "55.5" + " " + "Dollar";
    TokensOfPair("55.5", "Dollar");
  }

  lemma FortyEurosParts()
    ensures Tokens("40 Euros") == ["40", "Euros"]
  {
    assert IsToken("40") && IsToken("Euros");
    assert "40 Euros" == "40" + " " + "Euros";
    TokensOfPair("40", "Euros");
  }

  lemma DollarParts()
    ensures Tokens("Dollar") == ["Dollar"]
  {
    assert IsToken("Dollar");
    TokensOfToken("Dollar");
  }

  /** `unidiomatic_parse_money("20 Euro")` is (20, "Euro"). */
  lemma TwentyEuro()
    ensures CanIndexParts("20 Euro")
    ensures UnidiomaticParseMoney("20 Euro") == (20, "Euro")
  {
    TwentyEuroParts();
    ParseI32Spec("20");
    assert DigitsValue("20") == 20 by {
      assert "20"[..1] == "2";
      assert "2"[..0] == "";
    }
  }

  /** `more_idiomatic_parse_money("45 Dollar")` is (45, "Dollar"). */
  lemma FortyFiveDollar()
    ensures |Tokens("45 Dollar")| >= 2 && ParseI32(Tokens("45 Dollar")[0]).Ok?
    ensures MoreIdiomaticParseMoney("45 Dollar") == (45, "Dollar")
  {
    FortyFiveDollarParts();
    ParseI32Spec("45");
    assert DigitsValue("45") == 45 by {
      assert "45"[..1] == "4";
      assert "4"[..0] == "";
    }
  }

  /** `kind_of_idiomatic_parse_money("55.5 Dollar")` fails: a decimal point
      is an invalid digit for i32. */
  lemma FiftyFiveDotFiveDollar()
    ensures CanIndexParts("55.5 Dollar")
    ensures KindOfIdiomaticParseMoney("55.5 Dollar") == Err(InvalidDigit)
  {
    FiftyFiveDotFiveDollarParts();
    DecimalPointIsInvalidDigit();
  }

  lemma DecimalPointIsInvalidDigit()
    ensures ParseI32("55.5") == Err(InvalidDigit)
  {
    assert "55.5"[1..] == "5.5" && "5.5"[1..] == ".5";
    assert Accumulate(".5", 55, I32_MAX, PosOverflow) == Err(InvalidDigit);
    assert Accumulate("5.5", 5, I32_MAX, PosOverflow) == Err(InvalidDigit);
    assert Accumulate("55.5", 0, I32_MAX, PosOverflow) == Err(InvalidDigit);
  }

  /** `parse_money_with_custome_error_type("Dollar")` is a formatting
      error. */
  lemma LoneDollar()
    ensures ParseMoneyWithCustomErrorType("Dollar") == Err(ParseFormatting(EXPECTING_AMOUNT_AND_CURRENCY))
  {
    DollarParts();
  }

  /** `parse_money_with_slice_pattern("40 Euros")` succeeds: this parser
      does not check the currency. */
  lemma FortyEuros()
    ensures ParseMoneyWithSlicePattern("40 Euros") == Ok((Finite(40.0), "Euros"))
  {
    FortyEurosParts();
    FortyIsAmount();
  }

  lemma FortyIsAmount()
    ensures ParseF32("40") == Ok(Finite(40.0))
  {
    ParseF32OfDigits("40");
    assert DigitsValue("40") == 40 by {
      assert "40"[..1] == "4";
      assert "4"[..0] == "";
    }
  }
}
