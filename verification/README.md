# Money parsing, modelled in Dafny

This project models the money parser of `idiomatic_rust`, a small tutorial
crate. The crate reads text such as `"55.5 Dollar"` or `"56 €"` into a
`Money` value, which holds an `f32` amount and a `Currency`. It also contains
five tutorial functions that read the same input with progressively more
idiomatic error handling.

The model has six modules:

- `Wrappers`: `Option` and `Result`. `Result` carries `MapErr` and the
  failure-propagation members that Dafny's `:-` needs. These play the part of
  Rust's `?`.
- `Text`: `str::split_whitespace`, as `Tokens`, with the exact Unicode
  White_Space set. `str::to_lowercase`, as `ToLowercase`.
- `Numbers`: `str::parse::<i32>()` and `str::parse::<f32>()`, including
  their error kinds.
  - The i32 parser follows the standard library's scan. It reads an optional
    sign, then goes left to right. It checks for a bad digit before it checks
    for overflow.
  - The f32 parser follows the decimal grammar: `[sign] digits [. digits]
    [(e|E) [sign] digits]`, or `inf`, `infinity`, `nan` in any letter case.
- `MoneyErrors`: the `MoneyError` enum, its `From<ParseFloatError>`
  conversion, and its derived `Display`.
- `Money`: `Currency::from_str`, `Money::from_str` and `Money::new` (the
  `Money` constructor).
- `Tutorial`: the five parse functions of `src/main.rs`, and the calls
  `main` makes.

I/O is absent: `main` only prints results, and the model states what each of
its calls returns. A call that panics in Rust (`parts[0]` on empty input,
`unwrap` on an error) is modelled as a precondition of that function.

## Model

| member | source | states |
|---|---|---|
| Text.Tokens | src/money.rs:22 | `str::split_whitespace` collected into a vector; its contract is stated by `TokensOfUnwords`, `TokensAppend`, `TokensCollapseSpace` and `TokensAreTokens` |
| Text.ToLowercase | src/money.rs:42 | `str::to_lowercase`; it keeps the length, and `ToLowercaseEqual` states when two strings lowercase alike |
| Numbers.ParseI32 | src/main.rs:29 | `str::parse::<i32>`; its contract is stated by `ParseI32Spec` |
| MoneyErrors.FromFloatError | src/main.rs:21-25 | `From<ParseFloatError> for MoneyError`; `FromFloatErrorInverse` states that it loses nothing and `LiftAmount` what `?` does with it |
| Money.CurrencyTable | src/money.rs:41-47 | the lowercase match of `Currency::from_str`, for either euro spelling; its contract is stated by `CurrencyTableSpec` |
| Money.CurrencyFromStr | src/money.rs:38-48 | `Currency::from_str` with the corrected euro alias; its contract is stated by `CurrencyFromStrSpec` |
| Money.CurrencyFromStrAsWritten | src/money.rs:38-48 | `Currency::from_str` with the euro alias as written; its contract is stated by `CurrencyTableSpec` at that spelling |
| Money.ParseParts | src/money.rs:23-28 | the match on the parts in `Money::from_str`, for either euro spelling; its contract is stated by `ParsePartsOutcome` and `ParsePartsOk` |
| Money.FromStr | src/money.rs:21-29 | `Money::from_str` with the corrected euro alias; its contract is stated by `FromStrOutcome`, `FromStrRoundTrip` and `FromStrSpacing` |
| Money.FromStrAsWritten | src/money.rs:21-29 | `Money::from_str` with the euro alias as written; its contract is stated by `FromStrAsWrittenOutcome`, and `AsWrittenAgrees` states exactly where it differs from `FromStr` |
| Tutorial.UnidiomaticParseMoney | src/main.rs:27-39 | `unidiomatic_parse_money`; its contract is stated by `UnidiomaticIsCollapsedResult` |
| Tutorial.MoreIdiomaticParseMoney | src/main.rs:41-49 | `more_idiomatic_parse_money`, defined where it does not panic; its contract is stated by `MoreIdiomaticIsUnwrappedResult` |
| Tutorial.KindOfIdiomaticParseMoney | src/main.rs:51-59 | `kind_of_idiomatic_parse_money`; its contract is stated by `KindOfIdiomaticSpec` |
| Tutorial.ParseMoneyWithCustomErrorType | src/main.rs:61-71 | `parse_money_with_custome_error_type`; its contract is stated by `CustomErrorAndSlicePatternAgree` with `SlicePatternSpec` |
| Tutorial.ParseMoneyWithSlicePattern | src/main.rs:73-81 | `parse_money_with_slice_pattern`; its contract is stated by `SlicePatternSpec` and `MoneyFromStrExtendsSlicePattern` |
| Text.TokensOfUnwords | src/money.rs:22 | splitting at whitespace recovers any sequence of whitespace-free, non-empty parts from their space-joined spelling |
| Text.TokensNormalForm | src/money.rs:22 | re-splitting the space-joined parts of any text gives the same parts |
| Text.TokensAppend | src/money.rs:22 | when the cut between two texts is next to whitespace, the parts of the concatenation are the parts of each text in order |
| Text.TokensCollapseSpace | src/main.rs:28 | any non-empty run of whitespace separates parts exactly as one space does |
| Text.TokensAreTokens | src/main.rs:28 | every part is non-empty and contains no whitespace |
| Text.ToLowercaseEqual | src/money.rs:42 | two strings lowercase to the same string exactly when they differ only in letter case |
| Text.CaseVariantIsToken | src/money.rs:42 | a case variant of a whitespace-free word is whitespace-free |
| Numbers.AccumulateValue | src/main.rs:29 | the i32 digit scan succeeds exactly when all characters are digits and no prefix value passes the limit; it then returns the decimal value, and an all-digit string past the limit overflows |
| Numbers.ParseI32Spec | src/main.rs:29 | `parse::<i32>` accepts exactly the optionally signed digit strings whose value fits in i32 and returns that value; Empty exactly for ""; an out-of-range literal overflows in the direction of its sign |
| Numbers.ParseF32 | src/money.rs:24 | `parse::<f32>` reports Empty exactly for the empty string |
| Numbers.ParseF32Decimal | src/main.rs:69 | `[sign] digits [. digits]` with at least one digit parses to its exact value before f32 rounding, negated for `-` |
| Numbers.ParseF32Exponent | src/money.rs:24 | `[sign] digits [. digits] (e\|E) [sign] digits` parses to its mantissa scaled by ten to the signed exponent, negated for `-` |
| Numbers.ParseF32Words | src/money.rs:24 | `inf`, `infinity` and `nan` in any letter case, after an optional sign, parse to an infinity of that sign or to NaN |
| Numbers.ScaleByPow10 | src/money.rs:24 | scaling by an exponent multiplies by that power of ten, or divides by it when the exponent is negative |
| Numbers.ParseF32OfI32 | src/main.rs:69 | every string the i32 parser accepts, the f32 parser accepts with the same value before f32 rounding |
| MoneyErrors.LiftAmount | src/main.rs:21-25 | `?` on a float parse keeps a success unchanged and turns a failure into a `MoneyError` whose float cause is the original error |
| MoneyErrors.FromFloatErrorInverse | src/main.rs:21-25 | the conversion loses nothing: the float error is recovered from the `MoneyError`, and only float errors become `ParseAmount` |
| MoneyErrors.Display | src/main.rs:10-19 | an amount error displays with the prefix "Invalid input: "; formatting and currency errors display their message unchanged |
| MoneyErrors.DisplayDistinguishesCauses | src/main.rs:11-12 | two amount errors display alike exactly when their causes are the same |
| Money.CurrencyTableSpec | src/money.rs:41-47 | the currency table answers Dollar exactly for case variants of "dollar" or "$", and Euro exactly for case variants of "euro", "eur" or the euro symbol; all else is "Unknown currency" |
| Money.CurrencyFromStrSpec | src/money.rs:38-48 | `Currency::from_str` returns Ok(c) exactly for the spellings of c, and otherwise fails with "Unknown currency" |
| Money.AliasesDisjoint | src/money.rs:43-44 | no spelling names both currencies |
| Money.CurrencyCaseInsensitive | src/money.rs:42 | strings that differ only in letter case give the same currency result |
| Money.CurrencyDebugRoundTrip | src/money.rs:32-48 | the name `#[derive(Debug)]` prints for a currency parses back to that currency |
| Money.ParsePartsOutcome | src/money.rs:23-28 | the match on parts, for either euro spelling: a count other than two is the formatting error; a bad non-empty amount is an invalid-amount error; otherwise an unknown currency error exactly when the second part is no spelling; otherwise the parsed amount and currency |
| Money.FromStrOutcome | src/money.rs:21-29 | `Money::from_str` by the parts of its input; the amount error is always an invalid literal and never the empty one |
| Money.FromStrAsWrittenOutcome | src/money.rs:21-29 | the same outcome by parts for `Money::from_str` with the euro alias as written |
| Money.AsWrittenAgrees | src/money.rs:44 | the table as written and the corrected one give different results exactly for two-part text with a valid amount whose currency part is a case variant of either euro spelling |
| Money.ParsePartsOk | src/money.rs:12-15 | an amount part and a currency part that both parse build `Money::new(amount, currency)` |
| Money.SamePartsSameMoney | src/money.rs:22 | two texts with the same parts parse alike |
| Money.FromStrNormalForm | src/money.rs:22-24 | any text parses as its parts joined by single spaces do |
| Money.FromStrSpacing | src/money.rs:22 | leading, trailing and repeated whitespace never changes the result |
| Money.FromStrCaseInsensitive | src/money.rs:24 | case variants of the currency part give the same result |
| Money.FromStrRoundTrip | src/money.rs:21-29 | a decimal literal, whitespace and a currency's printed name parse back to that exact amount, before f32 rounding, in that currency |
| Money.ParseF32RejectsFirst | src/money.rs:24 | a part whose first character cannot begin a float literal is an invalid amount |
| Money.AliasIsNotAmount | src/money.rs:43-44 | every case variant of a currency spelling is a single part and an invalid amount |
| Money.CurrencyFirstIsInvalidAmount | src/money.rs:24 | the amount comes first: text of two parts whose first part is a currency spelling fails as an invalid amount, whatever the second part is |
| Money.FiftySixEuros | src/main.rs:94 | with the corrected euro alias, `"56 €".parse::<Money>()` is 56 euros |
| Money.OneMillionBitcoin | src/main.rs:95 | `"OneMillion Bitcoin".parse::<Money>()` fails as an invalid amount |
| Money.EuroWord | src/main.rs:96 | `"euro".parse::<Currency>()` is the euro |
| Money.EuroSignUnknownAsWritten | src/money.rs:44 | with the euro alias as written, the euro sign is an unknown currency, while the three characters U+00E2 U+201A U+00AC are the euro |
| Money.EuroSignRejectedAsWritten | src/money.rs:44 | with the euro alias as written, `"56 €"` fails with "Unknown currency"; with the corrected alias it is 56 euros |
| Tutorial.KindOfIdiomaticSpec | src/main.rs:51-59 | succeeds exactly when the first part is an integer literal within i32, returning its value and the second part verbatim; its error is never Empty |
| Tutorial.UnidiomaticIsCollapsedResult | src/main.rs:27-39 | the unidiomatic parser is the `Result` parser with every error collapsed into (-1, "invalid") |
| Tutorial.MoreIdiomaticIsUnwrappedResult | src/main.rs:41-49 | where `unwrap` does not panic, it returns what `?` passes on |
| Tutorial.SentinelIsAmbiguous | src/main.rs:31-34 | "-1 invalid" and "x y" get the same answer from the unidiomatic parser but different answers from the `Result` parser |
| Tutorial.CustomErrorAndSlicePatternAgree | src/main.rs:61-81 | the two f32 parsers differ only in the formatting message |
| Tutorial.SlicePatternOfPartsSpec | src/main.rs:75-80 | the slice match on parts: two parts with a parsing amount give that amount and the second part verbatim; a bad non-empty amount is an invalid amount; any other count is the formatting error |
| Tutorial.SlicePatternSpec | src/main.rs:73-81 | the slice-pattern parser by the parts of its input |
| Tutorial.MoneyFromStrExtendsSlicePattern | src/main.rs:73-81 | `Money::from_str` fails exactly as the slice-pattern parser does; where that succeeds, it adds the currency lookup of the second part |
| Tutorial.IntegerAmountIsFloatAmount | src/main.rs:51-81 | with two parts, an amount the i32 parser accepts is accepted by the f32 parser with the same value before f32 rounding |
| Tutorial.TwentyEuro | src/main.rs:84 | `unidiomatic_parse_money("20 Euro")` is (20, "Euro") |
| Tutorial.FortyFiveDollar | src/main.rs:86 | `more_idiomatic_parse_money("45 Dollar")` is (45, "Dollar") and does not panic |
| Tutorial.FiftyFiveDotFiveDollar | src/main.rs:88 | `kind_of_idiomatic_parse_money("55.5 Dollar")` fails with an invalid digit |
| Tutorial.LoneDollar | src/main.rs:90 | `parse_money_with_custome_error_type("Dollar")` is the formatting error "Expecting amount and currency" |
| Tutorial.FortyEuros | src/main.rs:92 | `parse_money_with_slice_pattern("40 Euros")` is (40.0, "Euros"), because that parser does not check the currency |

## Left out

- `main` and its printing. Each call `main` makes is stated as a lemma instead.
- Panics. `parts[0]`, `parts[1]` and `unwrap` panic on missing parts or an
  unparsed amount. In the model these are preconditions:
  `Tutorial.CanIndexParts` and the requires of `MoreIdiomaticParseMoney`.
- f32 rounding. The model keeps a finite amount as its exact real value. It
  does not model rounding to the nearest `f32`, overflow of a large literal to
  infinity, the sign of zero, or the sign of NaN.
- Exponent saturation. The standard library clamps very long exponents. The
  model reads the exponent as an unbounded integer.
- Full Unicode lowercasing. `to_lowercase` folds only the one-character
  uppercase letters of ASCII and Latin-1. Other characters are left unchanged.
  This is enough for every currency spelling. Each character of each alias
  is ASCII, a symbol with no case, or a Latin-1 letter (the `â` of the euro
  alias as written). No character outside ASCII and Latin-1 lowercases to
  any of them: U+212A KELVIN SIGN lowercases to `k` and U+0130 to `i` plus a
  combining dot, and neither occurs in an alias.
- Older standard-library parse behaviour. The model follows current
  releases of the standard library: a lone `+` or `-` is an i32
  `InvalidDigit`, and `inf`, `infinity` and `nan` are accepted in any letter
  case. Older releases reported a lone sign as `Empty` and accepted only
  `inf` and `NaN` as written. Under those releases
  `Tutorial.KindOfIdiomaticSpec`'s "never Empty" would fail for a lone sign.
- Error `Debug` output. The `failure` crate's `Fail` derive is not modelled,
  beyond the `Display` text of each variant.
- `ParseIntError` and `ParseFloatError`. The model carries only their kinds
  (`IntErrorKind`, `FloatErrorKind`), not the opaque structs.
- Numbers.ParseF32: its own contract states only the Empty case. Its accepted
  language and values are stated by `ParseF32Decimal`, `ParseF32Exponent`,
  `ParseF32Words` and `ParseF32OfI32`; its rejections only by
  `Money.ParseF32RejectsFirst`. No single lemma states that every other
  string is Invalid.

## Findings

| source | as written | input that shows it | evidently intended | confidence | as-written member | corrected member |
|---|---|---|---|---|---|---|
| src/money.rs:44 | the euro alias is the three characters U+00E2 U+201A U+00AC (the UTF-8 bytes of "€" read as Windows-1252), while `main` parses a real U+20AC (src/main.rs:94) | `"56 €".parse::<Money>()` gives `Err(ParseCurrency("Unknown currency"))`, so the `unwrap` at src/main.rs:94 panics | the alias is U+20AC EURO SIGN, and `"56 €"` parses to 56 euros | low to medium, not executed: the bytes may be an artefact of how the file was transcoded rather than of the code itself | Money.EuroSignRejectedAsWritten | Money.CurrencyFromStrSpec |

`Money.FromStrAsWritten` and `Money.CurrencyFromStrAsWritten` use the table
as written. `Money.FromStr` and `Money.CurrencyFromStr` use U+20AC, and the
rest of the model builds on those.
