/** The money type: an amount and a currency, read from text such as
    "55.5 Dollar" or "56 €". */
module Money {
  import opened Wrappers
  import opened Text
  import opened Numbers
  import opened MoneyErrors

  datatype Currency = Dollar | Euro

  /** A `Money` value. `Money::new(amount, currency)` is this constructor. */
  datatype Money = Money(amount: F32, currency: Currency)

  /** U+20AC EURO SIGN, the euro alias of the currency table. */
  const EURO_SIGN: string := "\U{20AC}"

  /** The euro alias as it stands in the currency table: the three
      characters U+00E2 U+201A U+00AC that the UTF-8 bytes of the euro sign
      spell when they are read back as Windows-1252. */
  const EURO_SIGN_AS_WRITTEN: string := "\U{E2}\U{201A}\U{AC}"

  const UNKNOWN_CURRENCY: string := "Unknown currency"
  const EXPECTED_AMOUNT_AND_CURRENCY: string := "Expected amount and currency"

  // ---------------------------------------------------------------- Currency

  /** `s` is a spelling of `c`, in some letter case, with `euroSign`
      standing for the table's euro symbol. */
  predicate IsAliasOf(s: string, c: Currency, euroSign: string) {
    match c
    case Dollar => EqualsIgnoreCase(s, "dollar") || EqualsIgnoreCase(s, "$")
    case Euro => EqualsIgnoreCase(s, "euro") || EqualsIgnoreCase(s, "eur") || EqualsIgnoreCase(s, euroSign)
  }

  /** The match in `Currency::from_str`: lowercase the text, then look it up
      among the dollar spellings, then among the euro spellings. */
  function CurrencyTable(s: string, euroSign: string): Result<Currency, MoneyError> {
    var key := ToLowercase(s);
    if key == "dollar" || key == "$" then Ok(Dollar)
    else if key == "euro" || key == "eur" || key == euroSign then Ok(Euro)
    else Err(ParseCurrency(UNKNOWN_CURRENCY))
  }

  /** `s.parse::<Currency>()`, with the euro sign spelled U+20AC. */
  function CurrencyFromStr(s: string): Result<Currency, MoneyError> {
    CurrencyTable(s, EURO_SIGN)
  }

  /** `s.parse::<Currency>()` with the euro alias exactly as the table writes
      it. */
  function CurrencyFromStrAsWritten(s: string): Result<Currency, MoneyError> {
    CurrencyTable(s, EURO_SIGN_AS_WRITTEN)
  }

  /** The name `#[derive(Debug)]` prints for a currency. */
  function DebugName(c: Currency): string {
    match c
    case Dollar => "Dollar"
    case Euro => "Euro"
  }

  lemma LowercaseLiterals()
    ensures ToLowercase("dollar") == "dollar" && ToLowercase("$") == "$"
    ensures ToLowercase("euro") == "euro" && ToLowercase("eur") == "eur"
    ensures ToLowercase(EURO_SIGN) == EURO_SIGN
    ensures ToLowercase(EURO_SIGN_AS_WRITTEN) == EURO_SIGN_AS_WRITTEN
  {
    assert ToLowercase("dollar") == "dollar" by {
      assert forall i :: 0 <= i < 6 ==> ToLowercase("dollar")[i] == "dollar"[i];
    }
    assert ToLowercase("euro") == "euro" by {
      assert forall i :: 0 <= i < 4 ==> ToLowercase("euro")[i] == "euro"[i];
    }
    assert ToLowercase("eur") == "eur" by {
      assert forall i :: 0 <= i < 3 ==> ToLowercase("eur")[i] == "eur"[i];
    }
    assert ToLowercase("$") == "$" by {
      assert ToLowercase("$")[0] == '$';
    }
    assert ToLowercase(EURO_SIGN) == EURO_SIGN by {
      assert ToLowercase(EURO_SIGN)[0] == EURO_SIGN[0];
    }
    assert ToLowercase(EURO_SIGN_AS_WRITTEN) == EURO_SIGN_AS_WRITTEN by {
      assert forall i :: 0 <= i < 3 ==> ToLowercase(EURO_SIGN_AS_WRITTEN)[i] == EURO_SIGN_AS_WRITTEN[i];
    }
  }

  /** The currency table accepts exactly the spellings of a currency, in any
      letter case, and answers with that currency; everything else is an
      unknown currency. Holds for either spelling of the euro symbol. */
  lemma CurrencyTableSpec(s: string, euroSign: string)
    requires euroSign == EURO_SIGN || euroSign == EURO_SIGN_AS_WRITTEN
    ensures CurrencyTable(s, euroSign) == Ok(Dollar) <==> IsAliasOf(s, Dollar, euroSign)
    ensures CurrencyTable(s, euroSign) == Ok(Euro) <==> IsAliasOf(s, Euro, euroSign)
    ensures CurrencyTable(s, euroSign).Err? <==>
      !IsAliasOf(s, Dollar, euroSign) && !IsAliasOf(s, Euro, euroSign)
    ensures CurrencyTable(s, euroSign).Err? ==>
      CurrencyTable(s, euroSign).error == ParseCurrency(UNKNOWN_CURRENCY)
  {
    LowercaseLiterals();
    ToLowercaseIsWord(s, "dollar");
    ToLowercaseIsWord(s, "$");
    ToLowercaseIsWord(s, "euro");
    ToLowercaseIsWord(s, "eur");
    ToLowercaseIsWord(s, euroSign);
  }

  /** `Currency::from_str` in terms of the spellings: Ok(c) exactly for the
      spellings of c, in any letter case, and "Unknown currency" otherwise. */
  lemma CurrencyFromStrSpec(s: string)
    ensures forall c :: CurrencyFromStr(s) == Ok(c) <==> IsAliasOf(s, c, EURO_SIGN)
    ensures CurrencyFromStr(s).Err? <==> forall c :: !IsAliasOf(s, c, EURO_SIGN)
    ensures CurrencyFromStr(s).Err? ==> CurrencyFromStr(s).error == ParseCurrency(UNKNOWN_CURRENCY)
  {
    CurrencyTableSpec(s, EURO_SIGN);
  }

  /** No spelling names both currencies. */
  lemma AliasesDisjoint(s: string)
    ensures !(IsAliasOf(s, Dollar, EURO_SIGN) && IsAliasOf(s, Euro, EURO_SIGN))
  {
    CurrencyTableSpec(s, EURO_SIGN);
  }

  /** Letter case never changes the answer. */
  lemma CurrencyCaseInsensitive(a: string, b: string)
    requires EqualsIgnoreCase(a, b)
    ensures CurrencyFromStr(a) == CurrencyFromStr(b)
  {
    ToLowercaseEqual(a, b);
  }

  /** The name a currency is printed with parses back to that currency. */
  lemma CurrencyDebugRoundTrip(c: Currency)
    ensures CurrencyFromStr(DebugName(c)) == Ok(c)
  {
    LowercaseLiterals();
    match c
    case Dollar =>
      assert EqualsIgnoreCase("Dollar", "dollar");
      ToLowercaseEqual("Dollar", "dollar");
    case Euro =>
      assert EqualsIgnoreCase("Euro", "euro");
      ToLowercaseEqual("Euro", "euro");
  }

  // ---------------------------------------------------------------- Money

  /** The match in `Money::from_str` on the whitespace-separated parts:
      exactly two parts are amount and currency, parsed in that order, each
      failure converted into a `MoneyError`; any other number of parts is a
      formatting error. */
  function ParseParts(parts: seq<string>, euroSign: string): Result<Money, MoneyError> {
    if |parts| == 2 then
      var amount :- LiftAmount(ParseF32(parts[0]));
      var currency :- CurrencyTable(parts[1], euroSign);
      Ok(Money(amount, currency))
    else
      Err(ParseFormatting(EXPECTED_AMOUNT_AND_CURRENCY))
  }

  /** `Money::from_str`: split at whitespace, then match on the parts. */
  function ParseMoney(s: string, euroSign: string): Result<Money, MoneyError> {
    ParseParts(Tokens(s), euroSign)
  }

  /** `s.parse::<Money>()`, with the euro sign spelled U+20AC. */
  function FromStr(s: string): Result<Money, MoneyError> {
    ParseMoney(s, EURO_SIGN)
  }

  /** `s.parse::<Money>()` with the euro alias exactly as the table writes
      it. */
  function FromStrAsWritten(s: string): Result<Money, MoneyError> {
    ParseMoney(s, EURO_SIGN_AS_WRITTEN)
  }

  /** What the match on `parts` answers, case by case, for the table with
      `euroSign`: the wrong number of parts is a formatting error; then a bad
      amount, which is an invalid literal and never an empty one; then an
      unknown currency; otherwise the parsed amount with the currency the
      second part spells. */
  ghost predicate PartsOutcome(r: Result<Money, MoneyError>, parts: seq<string>, euroSign: string) {
    && (r == Err(ParseFormatting(EXPECTED_AMOUNT_AND_CURRENCY)) <==> |parts| != 2)
    && (r == Err(ParseAmount(Invalid)) <==> |parts| == 2 && ParseF32(parts[0]).Err?)
    && (r != Err(ParseAmount(FloatErrorKind.Empty)))
    && (r == Err(ParseCurrency(UNKNOWN_CURRENCY)) <==>
          |parts| == 2 && ParseF32(parts[0]).Ok? && forall c :: !IsAliasOf(parts[1], c, euroSign))
    && (forall m :: r == Ok(m) <==>
          |parts| == 2 && ParseF32(parts[0]) == Ok(m.amount) && IsAliasOf(parts[1], m.currency, euroSign))
  }

  /** The match on parts answers as `PartsOutcome` says, for either spelling
      of the euro symbol, whenever the amount part is not empty. */
  lemma ParsePartsOutcome(parts: seq<string>, euroSign: string)
    requires euroSign == EURO_SIGN || euroSign == EURO_SIGN_AS_WRITTEN
    requires |parts| == 2 ==> parts[0] != []
    ensures PartsOutcome(ParseParts(parts, euroSign), parts, euroSign)
  {
    if |parts| == 2 {
      var amount := ParseF32(parts[0]);
      assert amount != Err(FloatErrorKind.Empty);
      if amount.Ok? {
        var currency := CurrencyTable(parts[1], euroSign);
        CurrencyTableSpec(parts[1], euroSign);
        if currency.Ok? {
          assert ParseParts(parts, euroSign) == Ok(Money(amount.value, currency.value));
          assert forall c :: IsAliasOf(parts[1], c, euroSign) <==> c == currency.value;
        } else {
          assert ParseParts(parts, euroSign) == Err(ParseCurrency(UNKNOWN_CURRENCY));
          assert forall c :: !IsAliasOf(parts[1], c, euroSign);
        }
      }
    }
  }

  /** `Money::from_str` answers by the whitespace-separated parts of its
      input, for either spelling of the euro symbol. */
  lemma ParseMoneyOutcome(s: string, euroSign: string)
    requires euroSign == EURO_SIGN || euroSign == EURO_SIGN_AS_WRITTEN
    ensures PartsOutcome(ParseMoney(s, euroSign), Tokens(s), euroSign)
  {
    var parts := Tokens(s);
    assert |parts| == 2 ==> parts[0] != [] by {
      TokensAreTokens(s);
    }
    ParsePartsOutcome(parts, euroSign);
  }

  /** What `s.parse::<Money>()` answers, by the parts of `s`, with the euro
      sign spelled U+20AC. */
  lemma FromStrOutcome(s: string)
    ensures PartsOutcome(FromStr(s), Tokens(s), EURO_SIGN)
  {
    ParseMoneyOutcome(s, EURO_SIGN);
  }

  /** What `s.parse::<Money>()` answers, by the parts of `s`, with the euro
      alias exactly as the table writes it. */
  lemma FromStrAsWrittenOutcome(s: string)
    ensures PartsOutcome(FromStrAsWritten(s), Tokens(s), EURO_SIGN_AS_WRITTEN)
  {
    ParseMoneyOutcome(s, EURO_SIGN_AS_WRITTEN);
  }

  /** The table as written and the corrected table disagree exactly on
      two-part text with a valid amount whose currency part is a case variant
      of one of the two euro spellings; everywhere else they agree. */
  lemma AsWrittenAgrees(s: string)
    ensures FromStrAsWritten(s) != FromStr(s) <==>
      |Tokens(s)| == 2 && ParseF32(Tokens(s)[0]).Ok? &&
      (EqualsIgnoreCase(Tokens(s)[1], EURO_SIGN) || EqualsIgnoreCase(Tokens(s)[1], EURO_SIGN_AS_WRITTEN))
  {
    var parts := Tokens(s);
    if |parts| == 2 && ParseF32(parts[0]).Ok? {
      CurrencyTableSpec(parts[1], EURO_SIGN);
      CurrencyTableSpec(parts[1], EURO_SIGN_AS_WRITTEN);
      EuroSpellingsApart(parts[1]);
    }
  }

  /** No text is a case variant of both euro spellings, and neither is a
      case variant of any other currency spelling. */
  lemma EuroSpellingsApart(x: string)
    ensures !(EqualsIgnoreCase(x, EURO_SIGN) && EqualsIgnoreCase(x, EURO_SIGN_AS_WRITTEN))
    ensures EqualsIgnoreCase(x, EURO_SIGN) || EqualsIgnoreCase(x, EURO_SIGN_AS_WRITTEN) ==>
      !EqualsIgnoreCase(x, "dollar") && !EqualsIgnoreCase(x, "$") &&
      !EqualsIgnoreCase(x, "euro") && !EqualsIgnoreCase(x, "eur")
  {
    if EqualsIgnoreCase(x, EURO_SIGN) {
      assert Lower(x[0]) == '\U{20AC}';
    }
    if EqualsIgnoreCase(x, EURO_SIGN_AS_WRITTEN) {
      assert Lower(x[0]) == '\U{E2}';
    }
  }

  /** Text with the same parts parses the same. */
  lemma SamePartsSameMoney(x: string, y: string)
    requires Tokens(x) == Tokens(y)
    ensures FromStr(x) == FromStr(y)
  {
  }

  /** Only the parts matter: `s` parses as its parts joined by single
      spaces do. */
  lemma FromStrNormalForm(s: string)
    ensures FromStr(s) == FromStr(Unwords(Tokens(s)))
  {
    TokensNormalForm(s);
  }

  /** Whitespace around the text and any run of whitespace between amount
      and currency are ignored. */
  lemma FromStrSpacing(w1: string, amount: string, w2: string, currency: string, w3: string)
    requires AllWs(w1) && AllWs(w3) && |w2| > 0 && AllWs(w2)
    ensures FromStr(w1 + amount + w2 + currency + w3) == FromStr(amount + " " + currency)
  {
    var middle := amount + w2 + currency;
    TokensCollapseSpace(amount, w2, currency);
    assert w1 + amount + w2 + currency + w3 == w1 + (middle + w3);
    TokensAfterBlank(w1, middle + w3);
    TokensTrimEnd(middle, w3);
    SamePartsSameMoney(w1 + amount + w2 + currency + w3, amount + " " + currency);
  }

  /** Any case variant of any spelling gives the same money. */
  lemma FromStrCaseInsensitive(amount: string, c1: string, c2: string)
    requires IsToken(amount) && IsToken(c1) && IsToken(c2)
    requires EqualsIgnoreCase(c1, c2)
    ensures FromStr(amount + " " + c1) == FromStr(amount + " " + c2)
  {
    TokensOfPair(amount, c1);
    TokensOfPair(amount, c2);
    CurrencyCaseInsensitive(c1, c2);
  }

  /** Two parts that parse as an amount and a currency make that money. */
  lemma ParsePartsOk(a: string, b: string, amount: F32, c: Currency)
    requires ParseF32(a) == Ok(amount) && CurrencyFromStr(b) == Ok(c)
    ensures ParseParts([a, b], EURO_SIGN) == Ok(Money(amount, c))
  {
  }

  /** An amount written as `[sign] digits [. digits]`, followed after any
      whitespace by the printed name of a currency, reads back as that exact
      amount in that currency. */
  lemma FromStrRoundTrip(sign: string, ip: string, fp: string, point: bool, w: string, c: Currency)
    requires sign == "" || sign == "+" || sign == "-"
    requires AllDigits(ip) && AllDigits(fp) && |ip| + |fp| > 0
    requires !point ==> fp == []
    requires |w| > 0 && AllWs(w)
    ensures
      var v := MantissaValue(Mantissa(ip, fp, []));
      FromStr((sign + DecimalText(ip, fp, point)) + w + DebugName(c))
        == Ok(Money(Finite(Negated(sign == "-", v)), c))
  {
    var literal := (sign + DecimalText(ip, fp, point));
    var name := DebugName(c);
    var v := MantissaValue(Mantissa(ip, fp, []));
    ParseF32Decimal(sign, ip, fp, point);
    assert ParseF32(literal) == Ok(Finite(Negated(sign == "-", v)));
    CurrencyDebugRoundTrip(c);
    ParsePartsOk(literal, name, Finite(Negated(sign == "-", v)), c);
    assert Tokens(literal + w + name) == [literal, name] by {
      LiteralIsToken(sign, ip, fp, point);
      DebugNameIsToken(c);
      TokensOfPair(literal, name);
      TokensCollapseSpace(literal, w, name);
    }
  }

  lemma DebugNameIsToken(c: Currency)
    ensures IsToken(DebugName(c))
  {
  }

  lemma LiteralIsToken(sign: string, ip: string, fp: string, point: bool)
    requires sign == "" || sign == "+" || sign == "-"
    requires AllDigits(ip) && AllDigits(fp) && |ip| + |fp| > 0
    requires !point ==> fp == []
    ensures IsToken((sign + DecimalText(ip, fp, point)))
  {
    var t := (sign + DecimalText(ip, fp, point));
    forall i | 0 <= i < |t|
      ensures !IsWs(t[i])
    {
      assert t[i] in {'+', '-', '.'} || IsDigit(t[i]);
    }
  }

  /** A token whose first character cannot begin a float literal (not a
      digit, a point or a sign, and not the start of `inf` or `nan`) is an
      invalid float. */
  lemma ParseF32RejectsFirst(t: string)
    requires |t| > 0 && !IsDigit(t[0]) && t[0] != '.' && t[0] != '+' && t[0] != '-'
    requires Lower(t[0]) != 'i' && Lower(t[0]) != 'n'
    ensures ParseF32(t) == Err(Invalid)
  {
    assert Magnitude(t) == t;
    assert SplitDigits(t) == ([], t) by {
      SplitDigitsOf([], t);
      assert [] + t == t;
    }
    assert SplitMantissa(t) == Mantissa([], [], t);
  }

  lemma AliasInitial(f: char)
    requires Lower(f) in {'d', '$', 'e', '\U{20AC}'}
    ensures !IsDigit(f) && f != '.' && f != '+' && f != '-'
    ensures Lower(f) != 'i' && Lower(f) != 'n'
  {
  }

  lemma SpellingsAreTokens()
    ensures IsToken("dollar") && IsToken("$") && IsToken("euro") && IsToken("eur")
    ensures IsToken(EURO_SIGN)
  {
    assert IsToken("dollar");
    assert IsToken("euro");
    assert IsToken("eur");
  }

  /** The spelling a case variant of a currency name stands for. */
  lemma AliasWord(c: Currency, currency: string) returns (a: string)
    requires IsAliasOf(currency, c, EURO_SIGN)
    ensures EqualsIgnoreCase(currency, a)
    ensures IsToken(a) && a[0] in {'d', '$', 'e', '\U{20AC}'}
  {
    SpellingsAreTokens();
    if EqualsIgnoreCase(currency, "dollar") {
      a := "dollar";
    } else if EqualsIgnoreCase(currency, "$") {
      a := "$";
    } else if EqualsIgnoreCase(currency, "euro") {
      a := "euro";
    } else if EqualsIgnoreCase(currency, "eur") {
      a := "eur";
    } else {
      a := EURO_SIGN;
    }
  }

  /** A case variant of a currency spelling is a token that cannot begin a
      float literal. */
  lemma AliasIsNotAmount(c: Currency, currency: string)
    requires IsAliasOf(currency, c, EURO_SIGN)
    ensures IsToken(currency)
    ensures ParseF32(currency) == Err(Invalid)
  {
    var a := AliasWord(c, currency);
    assert Lower(currency[0]) == Lower(a[0]);
    AliasInitial(currency[0]);
    ParseF32RejectsFirst(currency);
    CaseVariantIsToken(currency, a);
  }

  /** The currency comes second: text of two parts whose first part is a
      currency spelling is rejected as an invalid amount, whatever the
      second part is. */
  lemma CurrencyFirstIsInvalidAmount(c: Currency, s: string)
    requires |Tokens(s)| == 2 && IsAliasOf(Tokens(s)[0], c, EURO_SIGN)
    ensures FromStr(s) == Err(ParseAmount(Invalid))
  {
    AliasIsNotAmount(c, Tokens(s)[0]);
  }

  // ---------------------------------------------------------------- demo

  lemma FiftySixIsAmount()
    ensures ParseF32("56") == Ok(Finite(56.0))
  {
    ParseF32OfDigits("56");
    assert DigitsValue("56") == 56 by {
      assert "56"[..1] == "5";
      assert "5"[..0] == "";
    }
  }

  lemma FiftySixEurosParts()
    ensures Tokens("56 \U{20AC}") == ["56", EURO_SIGN]
  {
    assert IsToken("56") && IsToken(EURO_SIGN);
    assert "56 \U{20AC}" == "56" + " " + EURO_SIGN;
    TokensOfPair("56", EURO_SIGN);
  }

  lemma EuroSignIsEuro()
    ensures CurrencyFromStr(EURO_SIGN) == Ok(Euro)
  {
    LowercaseLiterals();
  }

  /** With the corrected euro alias, `"56 €".parse::<Money>()` is 56 euros. */
  lemma FiftySixEuros()
    ensures FromStr("56 \U{20AC}") == Ok(Money(Finite(56.0), Euro))
  {
    FiftySixIsAmount();
    EuroSignIsEuro();
    ParsePartsOk("56", EURO_SIGN, Finite(56.0), Euro);
    FiftySixEurosParts();
  }

  lemma OneMillionBitcoinParts()
    ensures Tokens("OneMillion Bitcoin") == ["OneMillion", "Bitcoin"]
  {
    assert IsToken("OneMillion");
    assert IsToken("Bitcoin");
    assert "OneMillion Bitcoin" == "OneMillion" + " " + "Bitcoin";
    TokensOfPair("OneMillion", "Bitcoin");
  }

  /** `"OneMillion Bitcoin".parse::<Money>()` fails on the amount. */
  lemma OneMillionBitcoin()
    ensures FromStr("OneMillion Bitcoin") == Err(ParseAmount(Invalid))
  {
    ParseF32RejectsFirst("OneMillion");
    OneMillionBitcoinParts();
  }

  /** `"euro".parse::<Currency>()` is the euro. */
  lemma EuroWord()
    ensures CurrencyFromStr("euro") == Ok(Euro)
  {
    LowercaseLiterals();
  }

  // ---------------------------------------------------------------- finding

  lemma EuroSignUnknownAsWritten()
    ensures CurrencyFromStrAsWritten(EURO_SIGN) == Err(ParseCurrency(UNKNOWN_CURRENCY))
    ensures CurrencyFromStrAsWritten(EURO_SIGN_AS_WRITTEN) == Ok(Euro)
  {
    LowercaseLiterals();
    assert EURO_SIGN[0] != EURO_SIGN_AS_WRITTEN[0];
  }

  /** With the table's euro alias as written, the euro sign is an unknown
      currency, so `"56 €".parse::<Money>().unwrap()` panics where the
      corrected table gives 56 euros; the alias the table does accept is the
      three-character sequence. */
  lemma EuroSignRejectedAsWritten()
    ensures CurrencyFromStrAsWritten(EURO_SIGN_AS_WRITTEN) == Ok(Euro)
    ensures FromStrAsWritten("56 \U{20AC}") == Err(ParseCurrency(UNKNOWN_CURRENCY))
    ensures FromStr("56 \U{20AC}") == Ok(Money(Finite(56.0), Euro))
  {
    EuroSignUnknownAsWritten();
    FiftySixIsAmount();
    FiftySixEurosParts();
    FiftySixEuros();
  }
}
