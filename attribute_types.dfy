/**
 * The values a request can carry for a rental attribute, and how the two
 * column types of the rentals table (string and integer) turn them into
 * stored values when a record is built or updated.
 *
 * The casts follow ActiveModel's string and integer types; presence of a
 * string is ActiveSupport's `blank?` (empty or only white space).
 */
module AttributeTypes {
  import opened Wrappers

  /** A JSON value sent for one attribute key, after the request body is unwrapped. */
  datatype Param =
    | JsonString(s: string)
    | JsonNumber(n: int)
    | JsonBool(b: bool)
    | JsonNull
    | JsonStructured   // an array or an object: not a permitted scalar

  /** Strong parameters permit only scalar values for a plain attribute key. */
  predicate IsScalar(p: Param) {
    !p.JsonStructured?
  }

  // ---------------------------------------------------------------------------
  // Blank strings

  /** The white-space characters of Ruby's `[[:space:]]` class on a Unicode string. */
  predicate IsSpace(c: char) {
    var k := c as int;
    k == 0x20 || 0x09 <= k <= 0x0D || k == 0x85 || k == 0xA0 || k == 0x1680
    || 0x2000 <= k <= 0x200A || k == 0x2028 || k == 0x2029 || k == 0x202F
    || k == 0x205F || k == 0x3000
  }

  /** `String#blank?`: the whole string matches `\A[[:space:]]*\z`, so the empty string is blank. */
  predicate BlankString(s: string) {
    forall i :: 0 <= i < |s| ==> IsSpace(s[i])
  }

  // ---------------------------------------------------------------------------
  // Decimal text: Ruby's Integer#to_s and String#to_i in base 10

  predicate IsDigit(c: char) {
    '0' <= c <= '9'
  }

  /** The characters Ruby's `String#to_i` skips before a number. */
  predicate IsLeadingSpace(c: char) {
    c == ' ' || 0x09 <= c as int <= 0x0D
  }

  function DigitChar(d: nat): (c: char)
    requires d < 10
    ensures IsDigit(c) && DigitValue(c) == d
  {
    ('0' as int + d) as char
  }

  /** The decimal digits of a natural number, most significant first, without leading zeros. */
  function NatDigits(n: nat): (s: string)
    ensures |s| >= 1
    ensures forall i :: 0 <= i < |s| ==> IsDigit(s[i])
    decreases n
  {
    if n < 10 then [DigitChar(n)] else NatDigits(n / 10) + [DigitChar(n % 10)]
  }

  /** `Integer#to_s`: a minus sign for negative numbers, then the digits. */
  function DecimalString(n: int): string {
    if n < 0 then "-" + NatDigits(-n) else NatDigits(n)
  }

  function DigitValue(c: char): nat
    requires IsDigit(c)
  {
    c as int - '0' as int
  }

  /** The value of a string of decimal digits, most significant first. */
  function DigitsValue(s: string): nat
    requires forall i :: 0 <= i < |s| ==> IsDigit(s[i])
  {
    if s == [] then 0 else DigitsValue(s[..|s| - 1]) * 10 + DigitValue(s[|s| - 1])
  }

  function SkipLeadingSpace(s: string): string {
    if |s| > 0 && IsLeadingSpace(s[0]) then SkipLeadingSpace(s[1..]) else s
  }

  /** The longest prefix of `s` made only of decimal digits. */
  function DigitPrefix(s: string): (p: string)
    ensures forall i :: 0 <= i < |p| ==> IsDigit(p[i])
  {
    if |s| > 0 && IsDigit(s[0]) then [s[0]] + DigitPrefix(s[1..]) else []
  }

  /**
   * `String#to_i`: skip leading white space, read an optional sign and then
   * as many digits as follow; anything else ends the number, and no digits
   * at all read as 0.
   */
  function ParseInt(s: string): int {
    var t := SkipLeadingSpace(s);
    if |t| > 0 && t[0] == '-' then -(DigitsValue(DigitPrefix(t[1..])) as int)
    else if |t| > 0 && t[0] == '+' then DigitsValue(DigitPrefix(t[1..]))
    else DigitsValue(DigitPrefix(t))
  }

  lemma {:induction false} DigitPrefixOfDigits(s: string)
    requires forall i :: 0 <= i < |s| ==> IsDigit(s[i])
    ensures DigitPrefix(s) == s
  {
    if |s| > 0 {
      DigitPrefixOfDigits(s[1..]);
      assert [s[0]] + s[1..] == s;
    }
  }

  lemma {:induction false} DigitsValueOfNatDigits(n: nat)
    ensures DigitsValue(NatDigits(n)) == n
    decreases n
  {
    if n >= 10 {
      var s := NatDigits(n / 10);
      DigitsValueOfNatDigits(n / 10);
      assert NatDigits(n)[..|NatDigits(n)| - 1] == s;
    }
  }

  /** Reading back the decimal text of any integer gives that integer. */
  lemma DecimalStringRoundTrip(n: int)
    ensures ParseInt(DecimalString(n)) == n
  {
    var m: nat := if n < 0 then -n else n;
    var digits := NatDigits(m);
    DigitsValueOfNatDigits(m);
    DigitPrefixOfDigits(digits);
    var text := DecimalString(n);
    assert SkipLeadingSpace(text) == text;
    if n < 0 {
      assert text[1..] == digits;
    }
  }

  // ---------------------------------------------------------------------------
  // Casting a parameter into a column value

  /** A string column: strings are kept, numbers written in decimal, booleans as "t"/"f". */
  function CastString(p: Param): (v: Option<string>)
    requires IsScalar(p)
  {
    match p
    case JsonString(s) => Some(s)
    case JsonNumber(n) => Some(DecimalString(n))
    case JsonBool(b) => Some(if b then "t" else "f")
    case JsonNull => None
  }

  /**
   * An integer column: numbers are kept, booleans become 1/0, a blank
   * string becomes NULL and any other string is read by `String#to_i`.
   */
  function CastInteger(p: Param): (v: Option<int>)
    requires IsScalar(p)
  {
    match p
    case JsonString(s) => if BlankString(s) then None else Some(ParseInt(s))
    case JsonNumber(n) => Some(n)
    case JsonBool(b) => Some(if b then 1 else 0)
    case JsonNull => None
  }

  /** An integer column leaves only null and blank text without a value. */
  lemma IntegerCastMissing(p: Param)
    requires IsScalar(p)
    ensures CastInteger(p) == None <==> p == JsonNull || (p.JsonString? && BlankString(p.s))
  {
  }

  /**
   * A count sent as a number and the same count sent as its decimal text
   * are stored as the same integer, and a string column holding a number
   * stores its decimal text.
   */
  lemma {:induction false} DecimalTextCastsLikeNumber(n: int)
    ensures CastString(JsonNumber(n)) == Some(DecimalString(n))
    ensures CastInteger(JsonString(DecimalString(n))) == CastInteger(JsonNumber(n)) == Some(n)
  {
    var text := DecimalString(n);
    assert !IsSpace(text[0]);
    DecimalStringRoundTrip(n);
  }
}
