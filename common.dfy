/** Vocabulary shared by every handler of the server: identifiers, optional
    request-body fields and the HTTP replies the handlers send. */
module Common {

  /** A document id (a MongoDB ObjectId in its string form). */
  type Id = string

  datatype Option<T> = None | Some(value: T)

  /** A request-body field as the handlers test it with `!field`: a field that is
      absent, null or the empty string is falsy. */
  predicate Truthy(field: Option<string>): (b: bool)
    ensures b <==> field != None && field != Some("")
  {
    field.Some? && field.value != ""
  }

  const OK: int := 200
  const CREATED: int := 201
  const BAD_REQUEST: int := 400
  const UNAUTHORIZED: int := 401
  const NOT_FOUND: int := 404

  /** The JSON body of a reply: either the data the handler returns or a
      `{ message }` object. */
  datatype Body<T> = Data(value: T) | Message(text: string)

  datatype Response<T> = Response(status: int, body: Body<T>)

  /** The character of a decimal digit. */
  function Digit(d: nat): (c: char)
    requires d < 10
    ensures '0' <= c <= '9' && c as int - '0' as int == d
  {
    ('0' as int + d) as char
  }

  predicate AllDigits(s: string)
  {
    forall i :: 0 <= i < |s| ==> '0' <= s[i] <= '9'
  }

  /** A number written in decimal, as a template literal renders it. */
  function Decimal(n: nat): (r: string)
    ensures r != [] && AllDigits(r)
    ensures n > 0 ==> r[0] != '0'
    ensures n < 10 <==> |r| == 1
  {
    if n < 10 then [Digit(n)] else Decimal(n / 10) + [Digit(n % 10)]
  }

  /** The number a string of decimal digits denotes. */
  function DecimalValue(s: string): nat
    requires AllDigits(s)
  {
    if s == [] then 0
    else DecimalValue(s[..|s| - 1]) * 10 + (s[|s| - 1] as int - '0' as int)
  }

  /** The decimal rendering loses nothing: reading it back gives the number. */
  lemma {:induction false} DecimalRoundTrip(n: nat)
    ensures DecimalValue(Decimal(n)) == n
  {
    if n >= 10 {
      DecimalRoundTrip(n / 10);
      var s := Decimal(n);
      assert s[..|s| - 1] == Decimal(n / 10);
    }
  }
}
