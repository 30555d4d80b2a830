/** The C++ worker's JSON printer, and the round trip through the parser. */
module CppJsonPrinter {
  import opened Text
  import opened CppJson
  import opened CppJsonGrammar
  import opened CppJsonComplete

  /** Every number is a 64-bit integer: the values the printer renders exactly. */
  predicate Int64Tree(v: Json)
    decreases v, 1
  {
    match v
    case Number(numeral) => numeral.Integral? && InInt64(numeral.value)
    case Array(items) => Int64Items(items)
    case Object(members) => Int64Members(members)
    case _ => true
  }

  predicate Int64Items(items: seq<Json>)
    decreases items, 0
  {
    items == [] || (Int64Tree(items[0]) && Int64Items(items[1..]))
  }

  predicate Int64Members(members: seq<Member>)
    decreases members, 0
  {
    members == [] || (Int64Tree(members[0].value) && Int64Members(members[1..]))
  }

  // ------------------------------------------------------- what is printed

  function HexDigit(d: nat): (c: char)
    requires d < 16
    ensures IsHex(c) && HexOf(c) == d
  {
    if d < 10 then ('0' as int + d) as char else ('a' as int + d - 10) as char
  }

  function DumpChar(c: char): string {
    if c == '"' then "\\\""
    else if c == '\\' then "\\\\"
    else if c == '\n' then "\\n"
    else if c == '\r' then "\\r"
    else if c == '\t' then "\\t"
    else if c < ' ' then "\\u00" + [HexDigit(c as int / 16), HexDigit(c as int % 16)]
    else [c]
  }

  function DumpChars(s: string): string {
    if s == "" then "" else DumpChar(s[0]) + DumpChars(s[1..])
  }

  function DumpString(s: string): string {
    "\"" + DumpChars(s) + "\""
  }

  function Dump(v: Json): string
    requires Int64Tree(v)
    decreases v, 1
  {
    match v
    case Nul => "null"
    case Boolean(flag) => if flag then "true" else "false"
    case Number(numeral) => IntText(numeral.value)
    case String(s) => DumpString(s)
    case Array(items) => "[" + DumpItems(items) + "]"
    case Object(members) => "{" + DumpMembers(members) + "}"
  }

  function DumpItems(items: seq<Json>): string
    requires Int64Items(items)
    decreases items, 0
  {
    if items == [] then ""
    else if |items| == 1 then Dump(items[0])
    else Dump(items[0]) + "," + DumpItems(items[1..])
  }

  function DumpMembers(members: seq<Member>): string
    requires Int64Members(members)
    decreases members, 0
  {
    if members == [] then ""
    else
      var first := DumpString(members[0].key) + ":" + Dump(members[0].value);
      if |members| == 1 then first else first + "," + DumpMembers(members[1..])
  }

  // -------------------------------------- the syntax tree of printed text

  function SpellingFor(c: char): (s: Spelling)
    ensures s.Valid() && s.Text() == DumpChar(c) && s.Meaning() == [c]
  {
    if c == '"' then Short('"')
    else if c == '\\' then Short('\\')
    else if c == '\n' then Short('n')
    else if c == '\r' then Short('r')
    else if c == '\t' then Short('t')
    else if c < ' ' then Unicode("00" + [HexDigit(c as int / 16), HexDigit(c as int % 16)])
    else Raw(c)
  }

  function CharsFor(s: string): seq<Spelling> {
    if s == "" then [] else [SpellingFor(s[0])] + CharsFor(s[1..])
  }

  lemma {:induction false} CharsForText(s: string)
    ensures ValidChars(CharsFor(s))
    ensures CharsMeaning(CharsFor(s)) == s
    ensures CharsText(CharsFor(s)) == DumpChars(s) + "\""
  {
    if s != "" {
      CharsForText(s[1..]);
      assert CharsFor(s)[1..] == CharsFor(s[1..]);
    }
  }

  function NumberFor(n: int): NumToken {
    NumToken(n < 0, Decimal(if n < 0 then -n else n), "", "e", "")
  }

  lemma NumberForText(n: int)
    requires InInt64(n)
    ensures NumberFor(n).Valid() && NumberFor(n).Integral() && NumberFor(n).Value() == n
    ensures NumberFor(n).Text() == IntText(n)
  {
    DecimalValue(if n < 0 then -n else n);
    DecimalLead(if n < 0 then -n else n);
  }

  lemma {:induction false} DecimalLead(n: nat)
    ensures |Decimal(n)| == 1 || Decimal(n)[0] != '0'
  {
  }

  function SyntaxFor(v: Json): Syntax
    requires Int64Tree(v)
    decreases v, 1
  {
    match v
    case Nul => NulText
    case Boolean(flag) => BoolText(flag)
    case Number(numeral) => NumberText(NumberFor(numeral.value))
    case String(s) => StringText(CharsFor(s))
    case Array(items) => ArrayText("", ItemsFor(items))
    case Object(members) => ObjectText("", MembersFor(members))
  }

  function ItemsFor(items: seq<Json>): seq<ItemText>
    requires Int64Items(items)
    decreases items, 0
  {
    if items == [] then [] else [ItemText("", SyntaxFor(items[0]), "")] + ItemsFor(items[1..])
  }

  function MembersFor(members: seq<Member>): seq<MemberText>
    requires Int64Members(members)
    decreases members, 0
  {
    if members == [] then []
    else [MemberText("", CharsFor(members[0].key), "", "", SyntaxFor(members[0].value), "")] + MembersFor(members[1..])
  }

  lemma {:induction false} SyntaxForText(v: Json)
    requires Int64Tree(v)
    ensures Valid(SyntaxFor(v)) && Meaning(SyntaxFor(v)) == v && TextOf(SyntaxFor(v)) == Dump(v)
    decreases v, 1
  {
    hide ItemsText, MembersText, ItemsMeaning, MembersMeaning, ItemsFor, MembersFor, CharsFor, CharsText, CharsMeaning, DumpChars, NumberFor;
    match v
    case Number(numeral) => NumberForText(numeral.value);
    case String(s) => CharsForText(s);
    case Array(items) => ItemsForText(items);
    case Object(members) => MembersForText(members);
    case _ =>
  }

  lemma {:induction false} ItemsForText(items: seq<Json>)
    requires Int64Items(items)
    ensures ValidItems(ItemsFor(items)) && ItemsMeaning(ItemsFor(items)) == items
    ensures |ItemsFor(items)| == |items|
    ensures items != [] ==> ItemsText(ItemsFor(items)) == DumpItems(items) + "]"
    decreases items, 0
  {
    hide TextOf, Meaning, Valid, Dump, SyntaxFor;
    if items != [] {
      SyntaxForText(items[0]);
      ItemsForText(items[1..]);
      assert ItemsFor(items)[1..] == ItemsFor(items[1..]);
      Bare(Dump(items[0]), DumpItems(items[1..]));
    }
  }

  lemma Bare(first: string, rest: string)
    ensures "" + first + "" == first
    ensures first + ("," + (rest + "]")) == first + "," + rest + "]"
  {
  }

  lemma {:induction false} MembersForText(members: seq<Member>)
    requires Int64Members(members)
    ensures ValidMembers(MembersFor(members)) && MembersMeaning(MembersFor(members)) == members
    ensures |MembersFor(members)| == |members|
    ensures members != [] ==> MembersText(MembersFor(members)) == DumpMembers(members) + "}"
    decreases members, 0
  {
    hide CharsFor, CharsText, CharsMeaning, ValidChars, DumpChars, TextOf, Meaning, Valid, Dump, SyntaxFor;
    if members != [] {
      var m := members[0];
      SyntaxForText(m.value);
      CharsForText(m.key);
      MembersForText(members[1..]);
      var all := MembersFor(members);
      assert all[1..] == MembersFor(members[1..]);
      KeyForText(all[0], m.key);
    }
  }

  lemma KeyForText(m: MemberText, key: string)
    requires m.before == "" && m.colon == "" && CharsText(m.key) == DumpChars(key) + "\""
    ensures KeyText(m) == DumpString(key) + ":"
  {
  }

  /** A printed tree has integers only, so the conversion to `double` has no say. */
  lemma {:induction false} PrintedFits(stod: Stod, v: Json)
    requires Int64Tree(v)
    ensures Fits(stod, SyntaxFor(v))
    decreases v, 1
  {
    match v
    case Array(items) => PrintedItemsFit(stod, items);
    case Object(members) => PrintedMembersFit(stod, members);
    case _ =>
  }

  lemma {:induction false} PrintedItemsFit(stod: Stod, items: seq<Json>)
    requires Int64Items(items)
    ensures ItemsFit(stod, ItemsFor(items))
    decreases items, 0
  {
    if items != [] {
      PrintedFits(stod, items[0]);
      PrintedItemsFit(stod, items[1..]);
      assert ItemsFor(items)[1..] == ItemsFor(items[1..]);
    }
  }

  lemma {:induction false} PrintedMembersFit(stod: Stod, members: seq<Member>)
    requires Int64Members(members)
    ensures MembersFit(stod, MembersFor(members))
    decreases members, 0
  {
    if members != [] {
      PrintedFits(stod, members[0].value);
      PrintedMembersFit(stod, members[1..]);
      assert MembersFor(members)[1..] == MembersFor(members[1..]);
    }
  }

  // ------------------------------------------------------------ round trip

  /** Printing and parsing again gives back the value, whatever its depth, key
      order or duplicate keys. */
  lemma RoundTrip(stod: Stod, v: Json)
    requires Int64Tree(v)
    ensures ParseJson(stod, Dump(v)) == Success(v)
  {
    SyntaxForText(v);
    PrintedFits(stod, v);
    assert Document("", SyntaxFor(v), "") == Dump(v);
    DocumentParses(stod, "", SyntaxFor(v), "");
  }

  lemma DumpInjective(v: Json, w: Json)
    requires Int64Tree(v) && Int64Tree(w)
    ensures Dump(v) == Dump(w) ==> v == w
  {
    RoundTrip(_ => Finite, v);
    RoundTrip(_ => Finite, w);
  }

  /** Framing: inside any text, the parser consumes exactly the printed value,
      unless the next character would continue its last number. */
  lemma Framing(stod: Stod, v: Json, t: string, i: nat)
    requires Int64Tree(v) && At(t, i, Dump(v))
    requires v.Number? ==> !ExtendsNumber(Peek(t, i + |Dump(v)|))
    ensures ParseValue(stod, t, i) == Ok(v, i + |Dump(v)|)
  {
    hide At, TextOf, Valid, Meaning, ParseBare;
    SyntaxForText(v);
    PrintedFits(stod, v);
    FirstChar(SyntaxFor(v));
    AtPeek(t, i, Dump(v));
    FrameBare(stod, SyntaxFor(v), t, i);
  }

  /** A character that takes a printed integer over: a digit does so unless the
      integer is zero, because a leading zero stands alone. */
  predicate Continues(n: int, c: char) {
    c == '.' || c == 'e' || c == 'E' || (IsDigit(c) && n != 0)
  }

  /** Exactly when a printed value is consumed and no more: always, except for an
      integer before a character that takes it over. */
  lemma FramingExactly(stod: Stod, v: Json, t: string, i: nat)
    requires Int64Tree(v) && At(t, i, Dump(v))
    ensures ParseValue(stod, t, i) == Ok(v, i + |Dump(v)|) <==>
      !(v.Number? && Continues(v.numeral.value, Peek(t, i + |Dump(v)|)))
  {
    hide At, TextOf, ParseBare, ParseNumber;
    if !(v.Number? && ExtendsNumber(Peek(t, i + |Dump(v)|))) {
      Framing(stod, v, t, i);
    } else {
      BareNumber(stod, v.numeral.value, t, i);
      if v.numeral.value == 0 && IsDigit(Peek(t, i + |Dump(v)|)) { ZeroStandsAlone(stod, t, i); }
      if ParseNumber(stod, t, i) == Ok(v, i + |Dump(v)|) {
        IntegralEnds(stod, t, i, v.numeral.value, i + |Dump(v)|);
      }
    }
  }

  lemma BareNumber(stod: Stod, n: int, t: string, i: nat)
    requires At(t, i, IntText(n))
    ensures i < |t| && ParseValue(stod, t, i) == ParseNumber(stod, t, i)
  {
    hide ParseNumber;
    AtHead(t, i, IntText(n));
    assert t[i] == '-' || IsDigit(t[i]);
  }

  lemma ZeroStandsAlone(stod: Stod, t: string, i: nat)
    requires At(t, i, "0") && IsDigit(Peek(t, i + 1))
    ensures ParseNumber(stod, t, i) == Ok(Number(Integral(0)), i + 1)
  {
    AtHead(t, i, "0");
    assert t[i..i + 1] == "0";
    assert DigitsValue("0") == 0 by { DecimalValue(0); }
  }

  /** Where an integer ends, however it was spelled. */
  lemma IntegralEnds(stod: Stod, t: string, i: nat, n: int, end: nat)
    requires i <= |t| && ParseNumber(stod, t, i) == Ok(Number(Integral(n)), end)
    ensures !Continues(n, Peek(t, end))
  {
    var a := if Peek(t, i) == '-' then i + 1 else i;
    if Peek(t, a) == '0' {
      assert t[a..a + 1] == "0";
      assert DigitsValue("0") == 0 by { DecimalValue(0); }
    }
  }
}
