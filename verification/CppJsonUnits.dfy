/** What the escapes, numbers and literals of a document stand for, said without the
    parser's own vocabulary: character codes, UTF-8 and integers. */
module CppJsonUnits {
  import opened Text
  import opened Wrappers
  import opened CppJson
  import opened CppJsonGrammar
  import opened CppJsonComplete
  import opened CppJsonSound
  import opened CppJsonPrinter

  // ------------------------------------------------------------- UTF-8

  /** A character of one to three bytes at the start of a text, and how many bytes it
      takes: a lead byte, continuation bytes from 0x80 to 0xBF, in the shortest form
      (section 3 of RFC 3629). Surrogate codes are let through, each on its own. */
  function ReadUtf8(s: string): Option<(nat, nat)> {
    if s == "" then None
    else
      var b := s[0] as int;
      if b <= 0x7F then Some((b, 1))
      else if 0xC0 <= b <= 0xDF && |s| >= 2 && Continues(s[1]) then
        Shortest((b - 0xC0) * 0x40 + (s[1] as int - 0x80), 2, 0x80)
      else if 0xE0 <= b <= 0xEF && |s| >= 3 && Continues(s[1]) && Continues(s[2]) then
        Shortest((b - 0xE0) * 0x1000 + (s[1] as int - 0x80) * 0x40 + (s[2] as int - 0x80), 3, 0x800)
      else None
  }

  predicate Continues(c: char) { 0x80 <= c as int <= 0xBF }

  function Shortest(code: nat, length: nat, least: nat): Option<(nat, nat)> {
    if code >= least then Some((code, length)) else None
  }

  /** The bytes of `s` are exactly these characters, one after the other. */
  predicate Reads(s: string, codes: seq<nat>)
    decreases |codes|
  {
    if codes == [] then s == ""
    else match ReadUtf8(s)
      case Some((code, n)) => code == codes[0] && n <= |s| && Reads(s[n..], codes[1..])
      case None => false
  }

  lemma Utf8Reads(code: nat, rest: string)
    requires code < 0x1_0000
    ensures ReadUtf8(Utf8(code) + rest) == Some((code, |Utf8(code)|))
  {
    var s := Utf8(code) + rest;
    assert forall k :: 0 <= k < |Utf8(code)| ==> s[k] == Utf8(code)[k];
  }

  // ----------------------------------------------------------- escapes

  /** `c` is a hexadecimal digit of value `d`. */
  predicate IsHexDigit(c: char, d: nat) {
    d < 16 && (c == "0123456789abcdef"[d] || c == "0123456789ABCDEF"[d])
  }

  /** The four digits `h` are the hexadecimal number `code`. */
  predicate Spells(h: string, code: nat) {
    |h| == 4 && code < 0x1_0000 &&
    IsHexDigit(h[0], code / 0x1000) && IsHexDigit(h[1], code / 0x100 % 0x10) &&
    IsHexDigit(h[2], code / 0x10 % 0x10) && IsHexDigit(h[3], code % 0x10)
  }

  predicate AllSpell(hs: seq<string>, codes: seq<nat>) {
    |hs| == |codes| && forall k :: 0 <= k < |hs| ==> Spells(hs[k], codes[k])
  }

  lemma SpellsHex(h: string, code: nat)
    requires Spells(h, code)
    ensures IsHex4(h) && Hex4(h) == code
  {
    hide IsHexDigit, HexOf, IsHex;
    HexDigitIs(h[0], code / 0x1000);
    HexDigitIs(h[1], code / 0x100 % 0x10);
    HexDigitIs(h[2], code / 0x10 % 0x10);
    HexDigitIs(h[3], code % 0x10);
    PlaceValues(code);
  }

  lemma PlaceValues(code: nat)
    requires code < 0x1_0000
    ensures ((code / 0x1000 * 16 + code / 0x100 % 0x10) * 16 + code / 0x10 % 0x10) * 16 + code % 0x10 == code
  {
    assert code / 0x10 / 0x10 == code / 0x100 && code / 0x100 / 0x10 == code / 0x1000;
  }

  lemma HexDigitIs(c: char, d: nat)
    requires IsHexDigit(c, d)
    ensures IsHex(c) && HexOf(c) == d
  {
  }

  /** Four characters that are not the digits of any number are no unit. */
  lemma HexOfSome(h: string)
    requires |h| == 4 && IsHex4(h)
    ensures exists code :: Spells(h, code)
  {
    hide IsHexDigit, HexOf, IsHex;
    forall k | 0 <= k < 4 ensures IsHexDigit(h[k], HexOf(h[k])) { DigitOfHex(h[k]); }
    DigitsOf(HexOf(h[0]), HexOf(h[1]), HexOf(h[2]), HexOf(h[3]));
    assert Spells(h, Hex4(h));
  }

  lemma DigitOfHex(c: char)
    requires IsHex(c)
    ensures IsHexDigit(c, HexOf(c))
  {
  }

  lemma DigitsOf(a: nat, b: nat, c: nat, d: nat)
    requires a < 16 && b < 16 && c < 16 && d < 16
    ensures var code := ((a * 16 + b) * 16 + c) * 16 + d;
      code < 0x1_0000 && code / 0x1000 == a && code / 0x100 % 0x10 == b && code / 0x10 % 0x10 == c && code % 0x10 == d
  {
  }

  /** The text of several `\u` escapes, one after the other. */
  function Escapes(hs: seq<string>): string {
    if hs == [] then "" else "\\u" + hs[0] + Escapes(hs[1..])
  }

  function Units(hs: seq<string>): seq<Spelling> {
    if hs == [] then [] else [Unicode(hs[0])] + Units(hs[1..])
  }

  lemma {:induction false} UnitsMean(hs: seq<string>, codes: seq<nat>)
    requires AllSpell(hs, codes)
    ensures ValidChars(Units(hs)) && CharsText(Units(hs)) == Escapes(hs) + "\""
    ensures Reads(CharsMeaning(Units(hs)), codes)
    decreases |hs|
  {
    if hs != [] {
      hide Hex4, Utf8, ReadUtf8, Spells;
      SpellsHex(hs[0], codes[0]);
      UnitsMean(hs[1..], codes[1..]);
      var rest := CharsMeaning(Units(hs[1..]));
      assert Units(hs)[1..] == Units(hs[1..]);
      Utf8Reads(codes[0], rest);
      var all := Utf8(codes[0]) + rest;
      assert CharsMeaning(Units(hs)) == all;
      assert all[|Utf8(codes[0])|..] == rest;
      assert "\\u" + hs[0] + (Escapes(hs[1..]) + "\"") == "\\u" + hs[0] + Escapes(hs[1..]) + "\"";
    }
  }

  /** A string of `\u` escapes, whatever the case of their digits, is read as the UTF-8
      bytes of their codes, each encoded on its own, and nothing else. */
  lemma EscapesAreUtf8(stod: Stod, hs: seq<string>, codes: seq<nat>) returns (s: string)
    requires AllSpell(hs, codes)
    ensures ParseJson(stod, "\"" + Escapes(hs) + "\"") == Success(String(s)) && Reads(s, codes)
  {
    UnitsMean(hs, codes);
    s := StringParses(stod, Units(hs));
    assert "\"" + (Escapes(hs) + "\"") == "\"" + Escapes(hs) + "\"";
  }

  lemma StringParses(stod: Stod, chars: seq<Spelling>) returns (s: string)
    requires ValidChars(chars)
    ensures s == CharsMeaning(chars) && ParseJson(stod, "\"" + CharsText(chars)) == Success(String(s))
  {
    hide ParseJson, CharsMeaning, CharsText, ValidChars;
    s := CharsMeaning(chars);
    var c := StringText(chars);
    assert Valid(c) && Meaning(c) == String(s) && Fits(stod, c) && TextOf(c) == "\"" + CharsText(chars);
    assert "" + TextOf(c) + "" == TextOf(c);
    DocumentParses(stod, "", c, "");
  }

  /** The short escapes of section 7 of RFC 8259, by their codes. */
  const SHORT_ESCAPES: map<char, int> :=
    map['"' := 0x22, '\\' := 0x5C, '/' := 0x2F, 'b' := 0x08, 'f' := 0x0C, 'n' := 0x0A, 'r' := 0x0D, 't' := 0x09]

  /** A short escape is the character with its code; any other letter but `u` is an error. */
  lemma ShortEscapesExactly(stod: Stod, e: char)
    ensures e in SHORT_ESCAPES ==>
      ParseJson(stod, "\"\\" + [e] + "\"") == Success(String([SHORT_ESCAPES[e] as char]))
    ensures e !in SHORT_ESCAPES && e != 'u' ==> ParseJson(stod, "\"\\" + [e] + "\"") == Failure("invalid escape")
  {
    hide ParseJson, CharsText, CharsMeaning;
    var t := "\"\\" + [e] + "\"";
    assert t == ['"', '\\', e, '"'];
    assert IsEscape(e) <==> e in SHORT_ESCAPES;
    if e in SHORT_ESCAPES {
      ShortAlone(e);
      var s := StringParses(stod, [Short(e)]);
      assert "\"" + CharsText([Short(e)]) == t;
    } else if e != 'u' {
      assert ParseEscape(t, 2) == Err("invalid escape");
      assert ParseChars(t, 1) == Err("invalid escape");
      StringFails(stod, t);
    }
  }

  lemma ShortAlone(e: char)
    requires e in SHORT_ESCAPES
    ensures ValidChars([Short(e)]) && CharsText([Short(e)]) == ['\\', e, '"']
    ensures CharsMeaning([Short(e)]) == [SHORT_ESCAPES[e] as char]
  {
    assert [Short(e)][1..] == [];
    assert CharsText([]) == "\"" && CharsMeaning([]) == "";
  }

  lemma StringFails(stod: Stod, t: string)
    requires t != "" && t[0] == '"' && ParseChars(t, 1).Err?
    ensures ParseJson(stod, t) == Failure(ParseChars(t, 1).message)
  {
    hide ParseChars;
    assert Skip(t, 0) == 0;
    assert ParseBare(stod, t, 0) == Err(ParseChars(t, 1).message);
  }

  /** Four characters after `\u` that are not hexadecimal digits are an error. */
  lemma OtherUnitsFail(stod: Stod, h: string)
    requires |h| == 4 && (forall code :: !Spells(h, code))
    ensures ParseJson(stod, "\"\\u" + h + "\"") == Failure("invalid unicode escape")
  {
    hide ParseJson, IsHex, Spells;
    var t := "\"\\u" + h + "\"";
    assert !IsHex4(h) by { if IsHex4(h) { HexOfSome(h); } }
    assert t[3..7] == h;
    assert t[0] == '"' && t[1] == '\\' && t[2] == 'u';
    assert ParseEscape(t, 2) == Err("invalid unicode escape");
    assert ParseChars(t, 1) == Err("invalid unicode escape");
    StringFails(stod, t);
  }

  /** A character stands for itself, unless it is a control character. */
  lemma RawExactly(stod: Stod, c: char)
    requires c != '"' && c != '\\'
    ensures ParseJson(stod, "\"" + [c] + "\"") ==
      if c as int >= 0x20 then Success(String([c])) else Failure("unescaped control in string")
  {
    hide ParseJson, CharsText, CharsMeaning;
    var t := "\"" + [c] + "\"";
    assert t == ['"', c, '"'];
    if c as int >= 0x20 {
      RawAlone(c);
      var s := StringParses(stod, [Raw(c)]);
      assert "\"" + CharsText([Raw(c)]) == t;
    } else {
      assert ParseChars(t, 1) == Err("unescaped control in string");
      StringFails(stod, t);
    }
  }

  lemma RawAlone(c: char)
    requires c as int >= 0x20 && c != '"' && c != '\\'
    ensures ValidChars([Raw(c)]) && CharsText([Raw(c)]) == [c, '"'] && CharsMeaning([Raw(c)]) == [c]
  {
    assert [Raw(c)][1..] == [];
    assert CharsText([]) == "\"" && CharsMeaning([]) == "";
  }

  // ----------------------------------------------- numbers and literals

  /** Every 64-bit integer is read as itself, and every other integer is an error. */
  lemma IntegersExactly(stod: Stod, n: int)
    ensures ParseJson(stod, IntText(n)) ==
      if -9223372036854775808 <= n <= 9223372036854775807 then Success(Number(Integral(n)))
      else Failure("integer must be within the interoperable safe range")
  {
    if InInt64(n) {
      RoundTrip(stod, Number(Integral(n)));
    } else {
      TooWide(stod, n);
      BareNumber(stod, n, IntText(n), 0);
    }
  }

  lemma TooWide(stod: Stod, n: int)
    requires !InInt64(n)
    ensures At(IntText(n), 0, IntText(n))
    ensures ParseNumber(stod, IntText(n), 0) == Err("integer must be within the interoperable safe range")
  {
    hide ParseNumber, AllDigits, InInt64, WholeEnd;
    var t, a, size := IntText(n), if n < 0 then 1 else 0, if n < 0 then -n else n;
    var whole := Decimal(size);
    assert a + |whole| == |t| && t[a..a + |whole|] == whole && (Peek(t, 0) == '-' <==> n < 0) by { Signs(n); }
    DecimalLead(size);
    FrameWhole(whole, t, a);
    DecimalValue(size);
    NumberStep(stod, t, 0, whole, false, |t|, false, |t|);
  }

  lemma Signs(n: int)
    ensures IntText(n) == (if n < 0 then "-" else "") + Decimal(if n < 0 then -n else n)
    ensures Peek(IntText(n), 0) == '-' <==> n < 0
  {
    var s := Decimal(if n < 0 then -n else n);
    assert IsDigit(s[0]);
  }

  /** A number with a fraction or an exponent is kept as written if the conversion gives
      a finite `double`; otherwise the error says which way it failed. */
  lemma FractionsExactly(stod: Stod, minus: bool, n: nat, frac: string, exp: string)
    requires AllDigits(frac) && AllDigits(exp) && (frac != "" || exp != "")
    ensures var t := (if minus then "-" else "") + Decimal(n) + (if frac == "" then "" else "." + frac) + (if exp == "" then "" else "e-" + exp);
      ParseJson(stod, t) == match stod(t)
      case Finite => Success(Number(Token(t)))
      case NotFinite => Failure("must be a finite JSON number")
      case OutOfRange => Failure("stod")
  {
    hide ParseNumber, ParseBare, DigitsValue, NumToken.Text, AllDigits;
    var token := NumToken(minus, Decimal(n), frac, "e-", exp);
    var t := token.Text();
    assert t == (if minus then "-" else "") + Decimal(n) + (if frac == "" then "" else "." + frac) + (if exp == "" then "" else "e-" + exp)
      && t != "" && (t[0] == '-' || IsDigit(t[0])) by { TokenHead(token); }
    DecimalLead(n);
    assert At(t, 0, t);
    FrameToken(stod, token, t, 0);
    assert Skip(t, 0) == 0;
    assert ParseBare(stod, t, 0) == ParseNumber(stod, t, 0) by { NumberComes(stod, t); }
  }

  lemma TokenHead(token: NumToken)
    requires token.whole != "" && AllDigits(token.whole)
    ensures token.Text() == (if token.minus then "-" else "") + token.whole
      + (if token.frac == "" then "" else "." + token.frac) + (if token.exp == "" then "" else token.mark + token.exp)
    ensures token.Text() != "" && (token.Text()[0] == '-' || IsDigit(token.Text()[0]))
  {
  }

  lemma NumberComes(stod: Stod, t: string)
    requires t != "" && (t[0] == '-' || IsDigit(t[0]))
    ensures ParseBare(stod, t, 0) == ParseNumber(stod, t, 0)
  {
    hide ParseNumber;
  }

  /** The three literals, and how containers are delimited and separated. */
  lemma LiteralsExactly(stod: Stod)
    ensures ParseJson(stod, "null") == Success(Nul)
    ensures ParseJson(stod, "true") == Success(Boolean(true)) && ParseJson(stod, "false") == Success(Boolean(false))
    ensures ParseJson(stod, "[]") == Success(Array([])) && ParseJson(stod, "{}") == Success(Object([]))
  {
    hide ParseJson;
    assert Dump(Array([])) == "[]" && Dump(Object([])) == "{}";
    RoundTrip(stod, Nul);
    RoundTrip(stod, Boolean(true));
    RoundTrip(stod, Boolean(false));
    RoundTrip(stod, Array([]));
    RoundTrip(stod, Object([]));
  }

  lemma ItemsSeparated(stod: Stod)
    ensures ParseJson(stod, "[null,null]") == Success(Array([Nul, Nul]))
  {
    hide ParseJson;
    assert [Nul, Nul][1..] == [Nul] && [Nul][1..] == [];
    var v := Array([Nul, Nul]);
    assert DumpItems([Nul]) == "null" && Dump(Nul) == "null";
    assert DumpItems([Nul, Nul]) == "null" + "," + "null";
    assert Dump(v) == "[null,null]";
    RoundTrip(stod, v);
  }

  lemma MembersSeparated(stod: Stod)
    ensures ParseJson(stod, "{\"\":null,\"\":{}}") == Success(Object([Member("", Nul), Member("", Object([]))]))
  {
    hide ParseJson;
    var ms := [Member("", Nul), Member("", Object([]))];
    assert ms[1..] == [ms[1]] && [ms[1]][1..] == [];
    assert Int64Tree(Nul) && Int64Tree(Object([]));
    assert Dump(Object([])) == "{}";
    assert DumpString("") == "\"\"";
    assert DumpMembers([ms[1]]) == "\"\":{}";
    assert DumpMembers(ms) == "\"\":null,\"\":{}";
    assert Dump(Object(ms)) == "{\"\":null,\"\":{}}";
    RoundTrip(stod, Object(ms));
  }

  /** The white space of section 2 of RFC 8259 is skipped; the worker also skips the
      two other spaces of the C locale, and nothing else. */
  lemma SpacesExactly(c: char)
    ensures IsSpace(c) <==> c as int in {0x20, 0x09, 0x0A, 0x0D, 0x0B, 0x0C}
  {
  }

  /** A character is printed raw exactly when section 7 of RFC 8259 lets it stand
      unescaped, and any control without a short form as an escape of its own code. */
  lemma PrintedRawExactly(c: char)
    ensures Dump(String([c])) == "\"" + [c] + "\"" <==> c >= '\U{20}' && c != '"' && c != '\\'
    ensures c < '\U{20}' && c !in "\n\r\t" ==> exists h :: Spells(h, c as int) && Dump(String([c])) == "\"\\u" + h + "\""
  {
    hide Spells;
    OneChar(c);
    if c < '\U{20}' && c !in "\n\r\t" {
      var h := ControlSpelled(c);
      assert "\"" + ("\\u" + h) + "\"" == "\"\\u" + h + "\"";
    }
    if Dump(String([c])) == "\"" + [c] + "\"" {
      assert ("\"" + DumpChar(c) + "\"")[1..|"\"" + DumpChar(c) + "\""| - 1] == DumpChar(c);
      assert |DumpChar(c)| == 1;
    }
  }

  lemma OneChar(c: char)
    ensures Dump(String([c])) == "\"" + DumpChar(c) + "\""
  {
    hide DumpChar;
    assert [c][1..] == "";
    assert DumpChars([c]) == DumpChar(c) + "" == DumpChar(c);
  }

  lemma ControlSpelled(c: char) returns (h: string)
    requires c < '\U{20}' && c !in "\n\r\t"
    ensures Spells(h, c as int) && DumpChar(c) == "\\u" + h
  {
    h := ['0', '0', HexDigit(c as int / 16), HexDigit(c as int % 16)];
    assert DumpChar(c) == "\\u" + h;
    assert Spells(h, c as int);
  }
}
