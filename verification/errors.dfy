/** The user layer's error type (`CustomError`), its user-visible rendering
    (`Display::fmt`) and the conversion from document-store driver errors. */
module Errors {
  import opened Results
  import opened Text

  /** Rust's `u16`. */
  type u16 = x: int | 0 <= x < 0x1_0000

  /** Derived `PartialEq` compares variant and payloads, which is exactly
      Dafny's equality on datatype values. */
  datatype CustomError =
    | UserNotFound(code: u16)
    | UserAlreadyExists(code: u16)
    | EmailAlreadyExists(code: u16)
    | MissingFields(code: u16, msg: string)
    | GenericError(msg: string)

  /** A document-store driver error, represented by its `to_string()` text. */
  datatype DriverError = DriverError(text: string)

  const NotFoundText: string := "User not found"
  const UserExistsText: string := "User already exists"
  const EmailExistsText: string := "Email already exists"
  /** Passed to `write!` as an argument, so its `{}` is printed literally. */
  const MissingFieldsText: string := "The following fields are missing: {}"
  /** The program's spelling ("ocurred") is part of the observable text. */
  const GenericPrefix: string := "An error ocurred: "

  /** `Display::fmt`: coded variants print as `"<code> <text>"`, a generic
      error as `GenericPrefix` followed by its message. */
  function Display(e: CustomError): (s: string)
    ensures e.GenericError? ==> StartsWith(s, GenericPrefix) && s[|GenericPrefix|..] == e.msg
    ensures !e.GenericError? ==> StartsWith(s, DecimalString(e.code) + " ")
    ensures e.UserNotFound? ==> s[|DecimalString(e.code)| + 1..] == NotFoundText
    ensures e.UserAlreadyExists? ==> s[|DecimalString(e.code)| + 1..] == UserExistsText
    ensures e.EmailAlreadyExists? ==> s[|DecimalString(e.code)| + 1..] == EmailExistsText
    ensures e.MissingFields? ==> s[|DecimalString(e.code)| + 1..] == MissingFieldsText + " " + e.msg
  {
    match e
    case UserNotFound(code) => DecimalString(code) + " " + NotFoundText
    case UserAlreadyExists(code) => DecimalString(code) + " " + UserExistsText
    case EmailAlreadyExists(code) => DecimalString(code) + " " + EmailExistsText
    case MissingFields(code, msg) => DecimalString(code) + " " + MissingFieldsText + " " + msg
    case GenericError(msg) => GenericPrefix + msg
  }

  /** `From<mongodb::error::Error>`: every driver error becomes a generic
      error carrying the driver's text and nothing else. */
  function FromDriverError(err: DriverError): (e: CustomError)
    ensures e.GenericError? && e.msg == err.text
  {
    GenericError(err.text)
  }

  /** Reads a rendered error back; the inverse of `Display`. */
  function ParseDisplay(s: string): Option<CustomError> {
    if StartsWith(s, GenericPrefix) then
      Some(GenericError(s[|GenericPrefix|..]))
    else
      var k := DigitPrefixLength(s);
      var n := ParseDecimal(s[..k]);
      if k == 0 || n >= 0x1_0000 then None else ParseCodedTail(n, s[k..])
  }

  /** The variant of a coded error, from the text after its code. */
  function ParseCodedTail(code: u16, rest: string): Option<CustomError> {
    if rest == " " + NotFoundText then Some(UserNotFound(code))
    else if rest == " " + UserExistsText then Some(UserAlreadyExists(code))
    else if rest == " " + EmailExistsText then Some(EmailAlreadyExists(code))
    else if StartsWith(rest, " " + MissingFieldsText + " ") then
      Some(MissingFields(code, rest[|MissingFieldsText| + 2..]))
    else
      None
  }

  /** A coded rendering is split back into its code and the text after it. */
  lemma ParseDisplayOfCoded(code: u16, tail: string)
    requires tail != [] && tail[0] == ' '
    ensures ParseDisplay(DecimalString(code) + tail) == ParseCodedTail(code, tail)
  {
    var d := DecimalString(code);
    var s := d + tail;
    DigitPrefixLengthOf(d, tail);
    assert s[..|d|] == d;
    assert s[|d|..] == tail;
    assert IsDigit(s[0]);
    assert !StartsWith(s, GenericPrefix) by {
      assert GenericPrefix[0] == 'A';
    }
  }

  lemma ParseCodedTailFixed(code: u16)
    ensures ParseCodedTail(code, " " + NotFoundText) == Some(UserNotFound(code))
    ensures ParseCodedTail(code, " " + UserExistsText) == Some(UserAlreadyExists(code))
    ensures ParseCodedTail(code, " " + EmailExistsText) == Some(EmailAlreadyExists(code))
  {
    assert |" " + UserExistsText| != |" " + NotFoundText|;
    assert |" " + EmailExistsText| != |" " + NotFoundText|;
    assert |" " + EmailExistsText| != |" " + UserExistsText|;
  }

  lemma ParseCodedTailMissing(code: u16, msg: string)
    ensures ParseCodedTail(code, " " + MissingFieldsText + " " + msg) == Some(MissingFields(code, msg))
  {
    var tail := " " + MissingFieldsText + " " + msg;
    assert tail[1] == 'T';
    assert tail != " " + NotFoundText by { assert (" " + NotFoundText)[1] == 'U'; }
    assert tail != " " + UserExistsText by { assert (" " + UserExistsText)[1] == 'U'; }
    assert tail != " " + EmailExistsText by { assert (" " + EmailExistsText)[1] == 'E'; }
    assert tail[..|MissingFieldsText| + 2] == " " + MissingFieldsText + " ";
    assert tail[|MissingFieldsText| + 2..] == msg;
  }

  lemma GenericRoundTrip(msg: string)
    ensures ParseDisplay(GenericPrefix + msg) == Some(GenericError(msg))
  {
    var s := GenericPrefix + msg;
    assert s[..|GenericPrefix|] == GenericPrefix;
    assert s[|GenericPrefix|..] == msg;
  }

  lemma NotFoundRoundTrip(code: u16)
    ensures ParseDisplay(Display(UserNotFound(code))) == Some(UserNotFound(code))
  {
    assert Display(UserNotFound(code)) == DecimalString(code) + (" " + NotFoundText);
    ParseDisplayOfCoded(code, " " + NotFoundText);
    ParseCodedTailFixed(code);
  }

  lemma UserExistsRoundTrip(code: u16)
    ensures ParseDisplay(Display(UserAlreadyExists(code))) == Some(UserAlreadyExists(code))
  {
    assert Display(UserAlreadyExists(code)) == DecimalString(code) + (" " + UserExistsText);
    ParseDisplayOfCoded(code, " " + UserExistsText);
    ParseCodedTailFixed(code);
  }

  lemma EmailExistsRoundTrip(code: u16)
    ensures ParseDisplay(Display(EmailAlreadyExists(code))) == Some(EmailAlreadyExists(code))
  {
    assert Display(EmailAlreadyExists(code)) == DecimalString(code) + (" " + EmailExistsText);
    ParseDisplayOfCoded(code, " " + EmailExistsText);
    ParseCodedTailFixed(code);
  }

  lemma MissingFieldsRoundTrip(code: u16, msg: string)
    ensures ParseDisplay(Display(MissingFields(code, msg))) == Some(MissingFields(code, msg))
  {
    assert Display(MissingFields(code, msg)) == DecimalString(code) + (" " + MissingFieldsText + " " + msg);
    ParseDisplayOfCoded(code, " " + MissingFieldsText + " " + msg);
    ParseCodedTailMissing(code, msg);
  }

  /** Every rendering can be read back to the error it came from. */
  lemma DisplayRoundTrip(e: CustomError)
    ensures ParseDisplay(Display(e)) == Some(e)
  {
    match e
    case GenericError(msg) => GenericRoundTrip(msg);
    case UserNotFound(code) => NotFoundRoundTrip(code);
    case UserAlreadyExists(code) => UserExistsRoundTrip(code);
    case EmailAlreadyExists(code) => EmailExistsRoundTrip(code);
    case MissingFields(code, msg) => MissingFieldsRoundTrip(code, msg);
  }

  /** Two errors render alike exactly when they are equal: the rendering
      loses neither the variant nor any payload. */
  lemma DisplayInjective(a: CustomError, b: CustomError)
    ensures Display(a) == Display(b) <==> a == b
  {
    DisplayRoundTrip(a);
    DisplayRoundTrip(b);
  }
}
