/** Vocabulary shared by every part of the marketplace: identifiers, clock
    values, money, and the HTTP responses the handlers send. */
module Common {

  datatype Option<T> = None | Some(value: T)

  /** Document identifiers: MongoDB ObjectIds in their string form. */
  type Id = string

  /** Instants as JavaScript Date values carry them: milliseconds since the epoch. */
  type Time = int

  /** Amounts of money in the currency's smallest unit, so that the 10% bid
      increment can be compared exactly. */
  type Money = int

  /** An HTTP response: the status code follows from the constructor. */
  datatype Response<T> =
    | Ok(body: T)                      // 200
    | Created(body: T)                 // 201
    | Invalid(errors: seq<string>)     // 400, express-validator's error list
    | BadRequest(message: string)      // 400
    | BelowMinimum(currentBid: Money)  // 400, "Minimum bid is <1.10 * currentBid>"
    | Forbidden(message: string)       // 403
    | NotFound(message: string)        // 404
    | ServerError(message: string)     // 500
  {
    function StatusCode(): (code: nat)
      ensures 200 <= code < 600
      ensures (code < 300) == (Ok? || Created?)
    {
      match this
      case Ok(_) => 200
      case Created(_) => 201
      case Invalid(_) => 400
      case BadRequest(_) => 400
      case BelowMinimum(_) => 400
      case Forbidden(_) => 403
      case NotFound(_) => 404
      case ServerError(_) => 500
    }
  }

  predicate IsHexDigit(c: char) {
    '0' <= c <= '9' || 'a' <= c <= 'f' || 'A' <= c <= 'F'
  }

  predicate AllHex(s: string) {
    forall i :: 0 <= i < |s| ==> IsHexDigit(s[i])
  }

  /** What is left of s once an optional "0x" or "0h" prefix (any case) is dropped. */
  function HexBody(s: string): (b: string)
    ensures |b| <= |s|
  {
    if |s| >= 2 && s[0] == '0' && (s[1] == 'x' || s[1] == 'X' || s[1] == 'h' || s[1] == 'H')
    then s[2..] else s
  }

  /** express-validator's isHexadecimal: an optional prefix, then one or more hex digits. */
  predicate IsHexadecimal(s: string) {
    |HexBody(s)| > 0 && AllHex(HexBody(s))
  }

  /** express-validator's isMongoId: hexadecimal and exactly 24 characters long. */
  predicate IsMongoId(s: string) {
    IsHexadecimal(s) && |s| == 24
  }

  /** The strings a query by id can cast to an ObjectId; any other string makes
      the query throw a CastError. */
  predicate IsObjectIdString(s: string) {
    |s| == 24 && AllHex(s)
  }

  /** Every castable id passes the request validator. */
  lemma CastableIdsPassValidation(s: string)
    requires IsObjectIdString(s)
    ensures IsMongoId(s)
  {
    assert IsHexDigit(s[1]);
    assert HexBody(s) == s;
  }

  /** The converse fails: any "0x" followed by 22 hex digits passes isMongoId
      yet cannot be cast. */
  lemma PrefixedIdPassesValidationOnly(digits: string)
    requires |digits| == 22 && AllHex(digits)
    ensures IsMongoId("0x" + digits)
    ensures !IsObjectIdString("0x" + digits)
  {
    var s := "0x" + digits;
    assert s[0] == '0' && s[1] == 'x';
    assert HexBody(s) == digits;
    assert !IsHexDigit(s[1]);
  }
}
