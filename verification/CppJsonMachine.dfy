/** The parser and printer as the C++ code runs them: a cursor that each call
    moves forward, and a stream that each call appends to. */
module CppJsonMachine {
  import opened Text
  import opened CppJson
  import opened CppJsonPrinter

  class Parser {
    const stod: Stod
    const text: string
    var index: nat

    constructor (stod: Stod, text: string)
      ensures this.stod == stod && this.text == text && index == 0
    {
      this.stod := stod;
      this.text := text;
      index := 0;
    }

    /** A call that answered `r` did what the step `p` says: same value and same
        cursor on success, same error otherwise. */
    ghost predicate Did<T>(r: Result<T>, p: Parsed<T>)
      reads this
    {
      match p
      case Ok(value, next) => r == Success(value) && index == next
      case Err(message) => r == Failure(message)
    }

    method Next() returns (c: char)
      requires index <= |text|
      modifies this
      ensures c == Peek(text, old(index))
      ensures index == old(index) + if old(index) < |text| then 1 else 0
    {
      c := '\0';
      if index < |text| {
        c := text[index];
        index := index + 1;
      }
    }

    method SkipSpace()
      requires index <= |text|
      modifies this
      ensures index == Skip(text, old(index)) <= |text|
    {
      while index < |text| && IsSpace(text[index])
        invariant index <= |text| && Skip(text, index) == Skip(text, old(index))
      {
        index := index + 1;
      }
    }

    method ParseAny() returns (r: Result<Json>)
      requires index <= |text|
      modifies this
      ensures Did(r, ParseValue(stod, text, old(index))) && old(index) <= index <= |text|
      decreases |text| - index, 4
    {
      SkipSpace();
      var current := Peek(text, index);
      if current == '{' {
        r := ParseObj();
      } else if current == '[' {
        r := ParseArr();
      } else if current == '"' {
        var s :- ParseStr();
        r := Success(String(s));
      } else if current == 't' || current == 'f' {
        r := ParseFlag();
      } else if current == 'n' {
        r := ParseNul();
      } else if current == '-' || IsDigit(current) {
        r := ParseNum();
      } else {
        r := Failure("invalid JSON");
      }
    }

    method ParseObj() returns (r: Result<Json>)
      requires index < |text|
      modifies this
      ensures Did(r, ParseObject(stod, text, old(index))) && old(index) <= index <= |text|
      decreases |text| - index, 2
    {
      hide Skip, ParseKey, ParseValue, ParseMembers;
      var _ := Next();
      SkipSpace();
      if Peek(text, index) == '}' {
        var _ := Next();
        return Success(Object([]));
      }
      ghost var start := index;
      var members: seq<Member> := [];
      AfterNone(ParseMembers(stod, text, index));
      while true
        invariant old(index) < start <= index <= |text|
        invariant ParseMembers(stod, text, start) == After(members, ParseMembers(stod, text, index))
        decreases |text| - index
      {
        MembersLoop(stod, text, index);
        var key :- ParseName();
        var value :- ParseAny();
        SkipSpace();
        var separator := Next();
        AfterBoth(members, [Member(key, value)], if separator == ',' then ParseMembers(stod, text, index) else Ok([], index));
        members := members + [Member(key, value)];
        if separator == '}' {
          return Success(Object(members));
        }
        if separator != ',' {
          return Failure("expected comma or end of object");
        }
      }
    }

    /** A member's key and colon: the first half of the member loop's body. */
    method ParseName() returns (r: Result<string>)
      requires index <= |text|
      modifies this
      ensures Did(r, ParseKey(text, old(index))) && old(index) <= index <= |text|
    {
      hide Skip, ParseChars;
      SkipSpace();
      if Peek(text, index) != '"' {
        return Failure("object key must be a string");
      }
      var key :- ParseStr();
      SkipSpace();
      var colon := Next();
      if colon != ':' {
        return Failure("expected colon");
      }
      r := Success(key);
    }

    method ParseArr() returns (r: Result<Json>)
      requires index < |text|
      modifies this
      ensures Did(r, ParseArray(stod, text, old(index))) && old(index) <= index <= |text|
      decreases |text| - index, 2
    {
      hide Skip, ParseValue;
      var _ := Next();
      SkipSpace();
      if Peek(text, index) == ']' {
        var _ := Next();
        return Success(Array([]));
      }
      ghost var start := index;
      var items: seq<Json> := [];
      AfterNone(ParseItems(stod, text, index));
      while true
        invariant old(index) < start <= index <= |text|
        invariant ParseItems(stod, text, start) == After(items, ParseItems(stod, text, index))
        decreases |text| - index
      {
        var value :- ParseAny();
        SkipSpace();
        var separator := Next();
        AfterBoth(items, [value], if separator == ',' then ParseItems(stod, text, index) else Ok([], index));
        items := items + [value];
        if separator == ']' {
          return Success(Array(items));
        }
        if separator != ',' {
          return Failure("expected comma or end of array");
        }
      }
    }

    method ParseStr() returns (r: Result<string>)
      requires index < |text|
      modifies this
      ensures Did(r, ParseChars(text, old(index) + 1)) && old(index) <= index <= |text|
    {
      var _ := Next();
      ghost var start := index;
      var out := "";
      AfterNone(ParseChars(text, index));
      while index < |text|
        invariant old(index) < start <= index <= |text|
        invariant ParseChars(text, start) == After(out, ParseChars(text, index))
      {
        var current := Next();
        if current == '"' {
          assert out + "" == out;
          return Success(out);
        }
        if current == '\\' {
          var s :- ParseEsc();
          AfterBoth(out, s, ParseChars(text, index));
          out := out + s;
          continue;
        }
        if current < ' ' {
          return Failure("unescaped control in string");
        }
        AfterBoth(out, [current], ParseChars(text, index));
        out := out + [current];
      }
      r := Failure("unterminated string");
    }

    method ParseEsc() returns (r: Result<string>)
      requires index <= |text|
      modifies this
      ensures Did(r, ParseEscape(text, old(index))) && old(index) <= index <= |text|
    {
      var escaped := Next();
      if IsEscape(escaped) {
        return Success([Unescape(escaped)]);
      }
      if escaped != 'u' {
        return Failure("invalid escape");
      }
      var code := 0;
      var i := 0;
      while i < 4
        invariant i <= 4 && index == old(index) + 1 + i <= |text|
        invariant AllHex(text[old(index) + 1..index])
        invariant code == HexPrefix(text[old(index) + 1..index])
      {
        ghost var read := text[old(index) + 1..index];
        var hex := Next();
        if !IsHex(hex) {
          NotHex4(text, old(index) + 1, i);
          return Failure("invalid unicode escape");
        }
        code := code * 16 + HexOf(hex);
        assert text[old(index) + 1..index] == read + [hex];
        i := i + 1;
      }
      HexPrefix4(text[old(index) + 1..index]);
      r := Success(Utf8(code));
    }

    method ParseFlag() returns (r: Result<Json>)
      requires index <= |text|
      modifies this
      ensures Did(r, ParseBool(text, old(index))) && old(index) <= index <= |text|
    {
      if At(text, index, "true") {
        index := index + 4;
        return Success(Boolean(true));
      }
      if At(text, index, "false") {
        index := index + 5;
        return Success(Boolean(false));
      }
      r := Failure("invalid boolean");
    }

    method ParseNul() returns (r: Result<Json>)
      requires index <= |text|
      modifies this
      ensures Did(r, ParseNull(text, old(index))) && old(index) <= index <= |text|
    {
      if !At(text, index, "null") {
        return Failure("invalid null");
      }
      index := index + 4;
      r := Success(Nul);
    }

    method SkipDigits()
      requires index <= |text|
      modifies this
      ensures index == ScanDigits(text, old(index)) <= |text|
    {
      while IsDigit(Peek(text, index))
        invariant index <= |text| && ScanDigits(text, index) == ScanDigits(text, old(index))
        decreases |text| - index
      {
        var _ := Next();
      }
    }

    /** The fraction, if there is one. */
    method ParseFrac() returns (r: Result<bool>)
      requires index <= |text|
      modifies this
      ensures Did(r, ParseFraction(text, old(index))) && old(index) <= index <= |text|
    {
      if Peek(text, index) != '.' {
        return Success(false);
      }
      var _ := Next();
      if !IsDigit(Peek(text, index)) {
        return Failure("invalid number");
      }
      SkipDigits();
      r := Success(true);
    }

    /** The exponent, if there is one. */
    method ParseExp() returns (r: Result<bool>)
      requires index <= |text|
      modifies this
      ensures Did(r, ParseExponent(text, old(index))) && old(index) <= index <= |text|
    {
      if Peek(text, index) != 'e' && Peek(text, index) != 'E' {
        return Success(false);
      }
      var _ := Next();
      if Peek(text, index) == '+' || Peek(text, index) == '-' {
        var _ := Next();
      }
      if !IsDigit(Peek(text, index)) {
        return Failure("invalid number");
      }
      SkipDigits();
      r := Success(true);
    }

    /** `std::stod` and the check for a finite result. */
    method Convert(token: string) returns (r: Result<Json>)
      ensures Did(r, Converted(stod, token, index))
    {
      match stod(token) {
        case OutOfRange => return Failure("stod");
        case NotFinite => return Failure("must be a finite JSON number");
        case Finite => return Success(Number(Token(token)));
      }
    }

    method ParseNum() returns (r: Result<Json>)
      requires index <= |text|
      modifies this
      ensures Did(r, ParseNumber(stod, text, old(index))) && old(index) <= index <= |text|
    {
      hide ParseFraction, ParseExponent, Signed, AllDigits, InInt64, Converted;
      var start := index;
      if Peek(text, index) == '-' {
        var _ := Next();
      }
      var first := index;
      if !IsDigit(Peek(text, index)) {
        return Failure("invalid number");
      }
      if Peek(text, index) == '0' {
        var _ := Next();
      } else {
        SkipDigits();
      }
      var whole := index;
      assert whole == WholeEnd(text, first);
      var hasFraction :- ParseFrac();
      var hasExponent :- ParseExp();
      var isIntegral := !hasFraction && !hasExponent;
      if !isIntegral {
        r := Convert(text[start..index]);
        return;
      }
      var parsed := Signed(first != start, text[first..whole]);
      if !InInt64(parsed) {
        return Failure("integer must be within the interoperable safe range");
      }
      r := Success(Number(Integral(parsed)));
    }
  }

  /** One round of the member loop. */
  lemma MembersLoop(stod: Stod, t: string, i: nat)
    requires i <= |t|
    ensures ParseMembers(stod, t, i) == match ParseKey(t, i)
      case Err(message) => Err(message)
      case Ok(key, k) => match ParseValue(stod, t, k)
        case Err(message) => Err(message)
        case Ok(value, n) =>
          var sep := Skip(t, n);
          if Peek(t, sep) == '}' then Ok([Member(key, value)], sep + 1)
          else if Peek(t, sep) != ',' then Err("expected comma or end of object")
          else After([Member(key, value)], ParseMembers(stod, t, sep + 1))
  {
    hide ParseKey, ParseValue, Skip;
  }

  predicate AllHex(h: string) {
    h == "" || (IsHex(h[|h| - 1]) && AllHex(h[..|h| - 1]))
  }

  function HexPrefix(h: string): nat
    requires AllHex(h)
  {
    if h == "" then 0 else HexPrefix(h[..|h| - 1]) * 16 + HexOf(h[|h| - 1])
  }

  lemma HexPrefix4(h: string)
    requires |h| == 4 && AllHex(h)
    ensures IsHex4(h) && HexPrefix(h) == Hex4(h)
  {
    var three, two, one := h[..3], h[..2], h[..1];
    assert three[..2] == two && two[..1] == one && one[..0] == "";
    assert AllHex(three) && AllHex(two) && AllHex(one);
    assert HexPrefix(one) == HexOf(h[0]);
    assert HexPrefix(two) == HexPrefix(one) * 16 + HexOf(h[1]);
    assert HexPrefix(three) == HexPrefix(two) * 16 + HexOf(h[2]);
  }

  lemma NotHex4(t: string, i: nat, k: nat)
    requires k < 4 && (i + k >= |t| || !IsHex(t[i + k]))
    ensures !(i + 4 <= |t| && IsHex4(t[i..i + 4]))
  {
    if i + 4 <= |t| { assert t[i..i + 4][k] == t[i + k]; }
  }

  /** `parse_json`. */
  method ParseText(stod: Stod, text: string) returns (r: Result<Json>)
    ensures r == ParseJson(stod, text)
  {
    var parser := new Parser(stod, text);
    var value :- parser.ParseAny();
    parser.SkipSpace();
    if parser.index != |text| {
      return Failure("trailing JSON content");
    }
    r := Success(value);
  }

  lemma Assoc(a: string, b: string, c: string)
    ensures a + b + c == a + (b + c)
  {
  }

  /** An output string stream. */
  class Stream {
    var text: string

    constructor ()
      ensures text == ""
    {
      text := "";
    }

    method Put(s: string)
      modifies this
      ensures text == old(text) + s
    {
      text := text + s;
    }

    method PutString(value: string)
      modifies this
      ensures text == old(text) + DumpString(value)
    {
      hide DumpChar;
      Put("\"");
      ghost var base := text;
      var k := 0;
      assert value[k..] == value;
      while k < |value|
        invariant k <= |value|
        invariant text + DumpChars(value[k..]) == base + DumpChars(value)
      {
        ghost var before := text;
        assert value[k..][1..] == value[k + 1..];
        Put(DumpChar(value[k]));
        Assoc(before, DumpChar(value[k]), DumpChars(value[k + 1..]));
        k := k + 1;
      }
      Put("\"");
      Assoc(old(text), "\"", DumpChars(value));
      Assoc(old(text), "\"" + DumpChars(value), "\"");
    }

    method PutValue(value: Json)
      requires Int64Tree(value)
      modifies this
      ensures text == old(text) + Dump(value)
      decreases value, 1
    {
      hide DumpChars, DumpItems, DumpMembers, IntText;
      match value
      case Nul => Put("null");
      case Boolean(flag) => Put(if flag then "true" else "false");
      case Number(numeral) => Put(IntText(numeral.value));
      case String(s) => PutString(s);
      case Array(items) =>
        Put("[");
        PutItems(items);
        Put("]");
      case Object(members) =>
        Put("{");
        PutMembers(members);
        Put("}");
    }

    method PutItems(items: seq<Json>)
      requires Int64Items(items)
      modifies this
      ensures text == old(text) + DumpItems(items)
      decreases items, 0
    {
      hide Dump, Int64Tree;
      ghost var base := text;
      var i := 0;
      assert items[i..] == items;
      while i < |items|
        invariant i <= |items| && Int64Items(items[i..])
        invariant text + RestItems(items, i) == base + DumpItems(items)
      {
        ghost var before := text;
        RestItemsStep(items, i);
        if i != 0 {
          Put(",");
        }
        PutValue(items[i]);
        Assoc(before, if i == 0 then "" else ",", Dump(items[i]));
        Assoc(before, (if i == 0 then "" else ",") + Dump(items[i]), RestItems(items, i + 1));
        i := i + 1;
      }
    }

    method PutMembers(members: seq<Member>)
      requires Int64Members(members)
      modifies this
      ensures text == old(text) + DumpMembers(members)
      decreases members, 0
    {
      hide Dump, Int64Tree, DumpString;
      ghost var base := text;
      var i := 0;
      assert members[i..] == members;
      while i < |members|
        invariant i <= |members| && Int64Members(members[i..])
        invariant text + RestMembers(members, i) == base + DumpMembers(members)
      {
        ghost var before := text;
        RestMembersStep(members, i);
        if i != 0 {
          Put(",");
        }
        ghost var comma := if i == 0 then "" else ",";
        var key := members[i].key;
        PutString(key);
        Put(":");
        PutValue(members[i].value);
        ghost var value := Dump(members[i].value);
        Assoc(before + comma, DumpString(key), ":");
        Assoc(before + comma, DumpString(key) + ":", value);
        Assoc(before, comma, DumpString(key) + ":" + value);
        Assoc(before, comma + (DumpString(key) + ":" + value), RestMembers(members, i + 1));
        i := i + 1;
      }
    }
  }

  /** What the printing loop still has to write from position `i` on, comma included. */
  ghost function RestItems(items: seq<Json>, i: nat): string
    requires i <= |items| && Int64Items(items[i..])
  {
    (if i == 0 || i == |items| then "" else ",") + DumpItems(items[i..])
  }

  lemma RestItemsStep(items: seq<Json>, i: nat)
    requires i < |items| && Int64Items(items[i..])
    ensures Int64Tree(items[i]) && Int64Items(items[i + 1..])
    ensures RestItems(items, i) == (if i == 0 then "" else ",") + Dump(items[i]) + RestItems(items, i + 1)
  {
    hide Dump, Int64Tree;
    assert items[i..][0] == items[i] && items[i..][1..] == items[i + 1..];
  }

  ghost function RestMembers(members: seq<Member>, i: nat): string
    requires i <= |members| && Int64Members(members[i..])
  {
    (if i == 0 || i == |members| then "" else ",") + DumpMembers(members[i..])
  }

  lemma RestMembersStep(members: seq<Member>, i: nat)
    requires i < |members| && Int64Members(members[i..])
    ensures Int64Tree(members[i].value) && Int64Members(members[i + 1..])
    ensures RestMembers(members, i) == (if i == 0 then "" else ",") +
      (DumpString(members[i].key) + ":" + Dump(members[i].value)) + RestMembers(members, i + 1)
  {
    hide Dump, Int64Tree, DumpString;
    assert members[i..][0] == members[i] && members[i..][1..] == members[i + 1..];
  }

  /** `dump_json`: the printed text parses back to the value. */
  method DumpText(value: Json) returns (text: string)
    requires Int64Tree(value)
    ensures text == Dump(value)
    ensures forall stod: Stod :: ParseJson(stod, text) == Success(value)
  {
    hide Dump, ParseJson, Int64Tree;
    var out := new Stream();
    out.PutValue(value);
    text := out.text;
    assert text == Dump(value);
    forall stod: Stod ensures ParseJson(stod, text) == Success(value) { RoundTrip(stod, value); }
  }
}
