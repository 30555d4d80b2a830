/** The C++ worker's JSON values and its recursive-descent parser.
    A `char` stands for one byte of the text; no branch of the parser looks
    past the ASCII range, so nothing here depends on an upper bound. */
module CppJson {
  import opened Text

  const INT64_MIN: int := -0x8000_0000_0000_0000
  const INT64_MAX: int := 0x7FFF_FFFF_FFFF_FFFF

  /** A number whose token has no fraction and no exponent is an exact 64-bit
      integer; any other token is kept as text (the `double` that results
      is not modelled, only whether there is one). */
  datatype Numeral = Integral(value: int) | Token(text: string)

  /** What `std::stod` makes of a token with a fraction or an exponent: a finite
      `double`, one that is not finite, or an exception. */
  datatype Conversion = Finite | NotFinite | OutOfRange

  type Stod = string -> Conversion

  datatype Json =
    | Nul
    | Boolean(flag: bool)
    | Number(numeral: Numeral)
    | String(str: string)
    | Array(items: seq<Json>)
    | Object(members: seq<Member>)

  datatype Member = Member(key: string, value: Json)

  datatype Result<+T> = Success(value: T) | Failure(error: string) {
    predicate IsFailure() { Failure? }
    function PropagateFailure<U>(): Result<U>
      requires Failure?
    {
      Failure(error)
    }
    function Extract(): T
      requires Success?
    {
      value
    }
  }

  /** What a parsing step answers: a value and the index after it, or an error. */
  datatype Parsed<+T> = Ok(value: T, next: nat) | Err(message: string) {
    predicate IsFailure() { Err? }
    function PropagateFailure<U>(): Parsed<U>
      requires Err?
    {
      Err(message)
    }
    function Extract(): (T, nat)
      requires Ok?
    {
      (value, next)
    }
  }

  /** A loop that has already pushed `done`, then runs on as `p`. */
  function After<T>(done: seq<T>, p: Parsed<seq<T>>): Parsed<seq<T>> {
    match p
    case Ok(value, next) => Ok(done + value, next)
    case Err(message) => Err(message)
  }

  lemma AfterNone<T>(p: Parsed<seq<T>>)
    ensures After([], p) == p
  {
    if p.Ok? { assert [] + p.value == p.value; }
  }

  lemma AfterBoth<T>(a: seq<T>, b: seq<T>, p: Parsed<seq<T>>)
    ensures After(a, After(b, p)) == After(a + b, p)
  {
    if p.Ok? { assert a + (b + p.value) == a + b + p.value; }
  }

  // ---------------------------------------------------------------- lexing

  /** `std::isspace` in the "C" locale. */
  predicate IsSpace(c: char) {
    c == ' ' || ('\t' <= c <= '\r')
  }

  function Peek(t: string, i: nat): char {
    if i < |t| then t[i] else '\0'
  }

  function Skip(t: string, i: nat): (j: nat)
    requires i <= |t|
    ensures i <= j <= |t|
    ensures j < |t| ==> !IsSpace(t[j])
    decreases |t| - i
  {
    if i < |t| && IsSpace(t[i]) then Skip(t, i + 1) else i
  }

  function ScanDigits(t: string, i: nat): (j: nat)
    requires i <= |t|
    ensures i <= j <= |t|
    ensures j < |t| ==> !IsDigit(t[j])
    decreases |t| - i
  {
    if i < |t| && IsDigit(t[i]) then ScanDigits(t, i + 1) else i
  }

  // --------------------------------------------------------------- strings

  predicate IsHex(c: char) {
    '0' <= c <= '9' || 'a' <= c <= 'f' || 'A' <= c <= 'F'
  }

  function HexOf(c: char): (d: nat)
    requires IsHex(c)
    ensures d < 16
  {
    if '0' <= c <= '9' then c as int - '0' as int
    else if 'a' <= c <= 'f' then c as int - 'a' as int + 10
    else c as int - 'A' as int + 10
  }

  predicate IsHex4(h: string) {
    |h| == 4 && IsHex(h[0]) && IsHex(h[1]) && IsHex(h[2]) && IsHex(h[3])
  }

  function Hex4(h: string): (code: nat)
    requires IsHex4(h)
    ensures code < 0x1_0000
  {
    ((HexOf(h[0]) * 16 + HexOf(h[1])) * 16 + HexOf(h[2])) * 16 + HexOf(h[3])
  }

  /** The bytes pushed for one `\u` unit; each unit is encoded on its own. */
  function Utf8(code: nat): string
    requires code < 0x1_0000
  {
    if code <= 0x7F then [code as char]
    else if code <= 0x7FF then [(0xC0 + code / 64) as char, (0x80 + code % 64) as char]
    else [(0xE0 + code / 4096) as char, (0x80 + code / 64 % 64) as char, (0x80 + code % 64) as char]
  }

  predicate IsEscape(e: char) { e in "\"\\/bfnrt" }

  function Unescape(e: char): char
    requires IsEscape(e)
  {
    if e == 'b' then '\U{08}'
    else if e == 'f' then '\U{0C}'
    else if e == 'n' then '\n'
    else if e == 'r' then '\r'
    else if e == 't' then '\t'
    else e
  }

  /** The part of an escape after the backslash, at `i`. */
  function ParseEscape(t: string, i: nat): (p: Parsed<string>)
    requires i <= |t|
    ensures p.Ok? ==> i < p.next <= |t|
  {
    var e := Peek(t, i);
    if IsEscape(e) then Ok([Unescape(e)], i + 1)
    else if e != 'u' then Err("invalid escape")
    else if i + 5 <= |t| && IsHex4(t[i + 1..i + 5]) then Ok(Utf8(Hex4(t[i + 1..i + 5])), i + 5)
    else Err("invalid unicode escape")
  }

  /** The characters of a string up to and including the closing quote. */
  function ParseChars(t: string, i: nat): (p: Parsed<string>)
    requires i <= |t|
    ensures p.Ok? ==> i < p.next <= |t|
    decreases |t| - i
  {
    if i == |t| then Err("unterminated string")
    else if t[i] == '"' then Ok("", i + 1)
    else if t[i] == '\\' then
      var (s, n) :- ParseEscape(t, i + 1);
      After(s, ParseChars(t, n))
    else if t[i] < ' ' then Err("unescaped control in string")
    else After([t[i]], ParseChars(t, i + 1))
  }

  // --------------------------------------------------------------- numbers

  predicate InInt64(n: int) { INT64_MIN <= n <= INT64_MAX }

  /** A fraction or exponent, if one starts at `i`: whether it did, and where it ends. */
  function ParseFraction(t: string, i: nat): (p: Parsed<bool>)
    requires i <= |t|
    ensures p.Ok? ==> i <= p.next <= |t|
  {
    if Peek(t, i) != '.' then Ok(false, i)
    else if !IsDigit(Peek(t, i + 1)) then Err("invalid number")
    else Ok(true, ScanDigits(t, i + 1))
  }

  function SkipSign(t: string, i: nat): (j: nat)
    requires i <= |t|
    ensures i <= j <= |t|
  {
    if Peek(t, i) == '+' || Peek(t, i) == '-' then i + 1 else i
  }

  function ParseExponent(t: string, i: nat): (p: Parsed<bool>)
    requires i <= |t|
    ensures p.Ok? ==> i <= p.next <= |t|
  {
    if Peek(t, i) != 'e' && Peek(t, i) != 'E' then Ok(false, i)
    else if !IsDigit(Peek(t, SkipSign(t, i + 1))) then Err("invalid number")
    else Ok(true, ScanDigits(t, SkipSign(t, i + 1)))
  }

  lemma {:induction false} ScannedDigits(t: string, i: nat)
    requires i <= |t|
    ensures AllDigits(t[i..ScanDigits(t, i)])
    decreases |t| - i
  {
    if i < |t| && IsDigit(t[i]) {
      ScannedDigits(t, i + 1);
      var j := ScanDigits(t, i + 1);
      assert t[i..j] == [t[i]] + t[i + 1..j];
    }
  }

  /** Where the digits before any fraction end: a leading zero stands alone. */
  function WholeEnd(t: string, i: nat): (j: nat)
    requires IsDigit(Peek(t, i))
    ensures i < j <= |t|
    ensures AllDigits(t[i..j])
  {
    ScannedDigits(t, i);
    if Peek(t, i) == '0' then i + 1 else ScanDigits(t, i)
  }

  /** `std::stoll` on an optional minus sign followed by `digits`. */
  function Signed(minus: bool, digits: string): int
    requires AllDigits(digits)
  {
    if minus then 0 - DigitsValue(digits) else DigitsValue(digits)
  }

  /** A token that is not integral must convert to a finite `double`; the exception of
      the conversion is not a JSON error, and carries the name of the function. */
  function Converted(stod: Stod, token: string, next: nat): Parsed<Json> {
    match stod(token)
    case Finite => Ok(Number(Token(token)), next)
    case NotFinite => Err("must be a finite JSON number")
    case OutOfRange => Err("stod")
  }

  function ParseNumber(stod: Stod, t: string, i: nat): (p: Parsed<Json>)
    requires i <= |t|
    ensures p.Ok? ==> i < p.next <= |t|
  {
    var minus := Peek(t, i) == '-';
    var a := if minus then i + 1 else i;
    if !IsDigit(Peek(t, a)) then Err("invalid number")
    else
      var b := WholeEnd(t, a);
      var (hasFraction, c) :- ParseFraction(t, b);
      var (hasExponent, d) :- ParseExponent(t, c);
      if hasFraction || hasExponent then Converted(stod, t[i..d], d)
      else if InInt64(Signed(minus, t[a..b])) then Ok(Number(Integral(Signed(minus, t[a..b]))), d)
      else Err("integer must be within the interoperable safe range")
  }

  // ---------------------------------------------------------------- values

  function ParseBool(t: string, i: nat): (p: Parsed<Json>)
    ensures p.Ok? ==> i < p.next <= |t|
  {
    if At(t, i, "true") then Ok(Boolean(true), i + 4)
    else if At(t, i, "false") then Ok(Boolean(false), i + 5)
    else Err("invalid boolean")
  }

  function ParseNull(t: string, i: nat): (p: Parsed<Json>)
    ensures p.Ok? ==> i < p.next <= |t|
  {
    if At(t, i, "null") then Ok(Nul, i + 4) else Err("invalid null")
  }

  function ParseValue(stod: Stod, t: string, i: nat): (p: Parsed<Json>)
    requires i <= |t|
    ensures p.Ok? ==> i < p.next <= |t|
    decreases |t| - i, 4
  {
    ParseBare(stod, t, Skip(t, i))
  }

  /** A value whose first character is at `i`. */
  function ParseBare(stod: Stod, t: string, i: nat): (p: Parsed<Json>)
    requires i <= |t|
    ensures p.Ok? ==> i < p.next <= |t|
    decreases |t| - i, 3
  {
    var c := Peek(t, i);
    if c == '{' then ParseObject(stod, t, i)
    else if c == '[' then ParseArray(stod, t, i)
    else if c == '"' then
      var (s, n) :- ParseChars(t, i + 1);
      Ok(String(s), n)
    else if c == 't' || c == 'f' then ParseBool(t, i)
    else if c == 'n' then ParseNull(t, i)
    else if c == '-' || IsDigit(c) then ParseNumber(stod, t, i)
    else Err("invalid JSON")
  }

  function ParseObject(stod: Stod, t: string, i: nat): (p: Parsed<Json>)
    requires i < |t|
    ensures p.Ok? ==> i < p.next <= |t|
    decreases |t| - i, 2
  {
    var j := Skip(t, i + 1);
    if Peek(t, j) == '}' then Ok(Object([]), j + 1)
    else
      var (members, n) :- ParseMembers(stod, t, j);
      Ok(Object(members), n)
  }

  /** A member's key and the colon after it. */
  function ParseKey(t: string, i: nat): (p: Parsed<string>)
    requires i <= |t|
    ensures p.Ok? ==> i < p.next <= |t|
  {
    var j := Skip(t, i);
    if Peek(t, j) != '"' then Err("object key must be a string")
    else
      var (key, k) :- ParseChars(t, j + 1);
      var colon := Skip(t, k);
      if Peek(t, colon) != ':' then Err("expected colon") else Ok(key, colon + 1)
  }

  function ParseMembers(stod: Stod, t: string, i: nat): (p: Parsed<seq<Member>>)
    requires i <= |t|
    ensures p.Ok? ==> i < p.next <= |t|
    decreases |t| - i, 5
  {
    var (key, k) :- ParseKey(t, i);
    var (value, n) :- ParseValue(stod, t, k);
    var sep := Skip(t, n);
    if Peek(t, sep) == '}' then Ok([Member(key, value)], sep + 1)
    else if Peek(t, sep) != ',' then Err("expected comma or end of object")
    else After([Member(key, value)], ParseMembers(stod, t, sep + 1))
  }

  function ParseArray(stod: Stod, t: string, i: nat): (p: Parsed<Json>)
    requires i < |t|
    ensures p.Ok? ==> i < p.next <= |t|
    decreases |t| - i, 2
  {
    var j := Skip(t, i + 1);
    if Peek(t, j) == ']' then Ok(Array([]), j + 1)
    else
      var (items, n) :- ParseItems(stod, t, j);
      Ok(Array(items), n)
  }

  function ParseItems(stod: Stod, t: string, i: nat): (p: Parsed<seq<Json>>)
    requires i <= |t|
    ensures p.Ok? ==> i < p.next <= |t|
    decreases |t| - i, 5
  {
    var (value, n) :- ParseValue(stod, t, i);
    var sep := Skip(t, n);
    if Peek(t, sep) == ']' then Ok([value], sep + 1)
    else if Peek(t, sep) != ',' then Err("expected comma or end of array")
    else After([value], ParseItems(stod, t, sep + 1))
  }

  function ParseJson(stod: Stod, t: string): Result<Json> {
    match ParseValue(stod, t, 0)
    case Err(message) => Failure(message)
    case Ok(value, n) => if Skip(t, n) == |t| then Success(value) else Failure("trailing JSON content")
  }
}
