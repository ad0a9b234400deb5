/** `MoneyError`, the error type shared by the money parsers, and its
    conversion from the float parser's error. */
module MoneyErrors {
  import opened Wrappers
  import opened Numbers

  /** A `MoneyError`: the amount was not a float, the input did not split
      into amount and currency, or the currency was not recognised. */
  datatype MoneyError =
    | ParseAmount(cause: FloatErrorKind)
    | ParseFormatting(msg: string)
    | ParseCurrency(msg: string)

  /** `From<ParseFloatError> for MoneyError`: the conversion `?` applies to a
      failed amount parse. */
  function FromFloatError(e: FloatErrorKind): MoneyError {
    ParseAmount(e)
  }

  /** The float error a `MoneyError` was converted from, if any. */
  function AmountCause(e: MoneyError): Option<FloatErrorKind> {
    if e.ParseAmount? then Some(e.cause) else None
  }

  /** The `?` operator applied to an amount parse inside a function returning
      `Result<_, MoneyError>`. */
  function LiftAmount(r: Result<F32, FloatErrorKind>): (lifted: Result<F32, MoneyError>)
    ensures lifted.Ok? <==> r.Ok?
    ensures r.Ok? ==> lifted.value == r.value
    ensures r.Err? ==> AmountCause(lifted.error) == Some(r.error)
  {
    r.MapErr(FromFloatError)
  }

  /** The conversion loses nothing: the float error is recovered from the
      `MoneyError`, and only float errors are converted into `ParseAmount`. */
  lemma FromFloatErrorInverse(e: FloatErrorKind, m: MoneyError)
    ensures AmountCause(FromFloatError(e)) == Some(e)
    ensures AmountCause(m).Some? ==> FromFloatError(AmountCause(m).value) == m
  {
  }

  /** The text of `ParseFloatError`'s `Display`. */
  function FloatErrorText(e: FloatErrorKind): string {
    match e
    case Empty => "cannot parse float from empty string"
    case Invalid => "invalid float literal"
  }

  /** The `Display` the `failure` derive gives each variant: an amount error is
      prefixed with "Invalid input: ", the other two show their message. */
  function Display(e: MoneyError): (text: string)
    ensures e.ParseAmount? ==> |text| > 15 && text[..15] == "Invalid input: "
    ensures !e.ParseAmount? ==> text == e.msg
  {
    match e
    case ParseAmount(cause) => "Invalid input: " + FloatErrorText(cause)
    case ParseFormatting(msg) => msg
    case ParseCurrency(msg) => msg
  }

  /** Two amount errors display alike only when their causes are the same. */
  lemma DisplayDistinguishesCauses(a: FloatErrorKind, b: FloatErrorKind)
    ensures Display(ParseAmount(a)) == Display(ParseAmount(b)) <==> a == b
  {
    if a != b {
      assert |Display(ParseAmount(a))| != |Display(ParseAmount(b))|;
    }
  }
}
