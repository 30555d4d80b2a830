/** Every text of the grammar parses to its meaning, and the parser stops exactly
    where the text ends. */
module CppJsonComplete {
  import opened Text
  import opened CppJson
  import opened CppJsonGrammar

  /** A character that would continue a number token. */
  predicate ExtendsNumber(c: char) {
    IsDigit(c) || c == '.' || c == 'e' || c == 'E'
  }

  /** A character that may follow a value and its white space; '\0' is the end of the text. */
  predicate EndsValue(c: char) {
    c == ',' || c == ']' || c == '}' || c == '\0'
  }

  lemma {:induction false} SkipBlank(t: string, i: nat, w: string)
    requires At(t, i, w) && AllSpace(w) && !IsSpace(Peek(t, i + |w|))
    ensures Skip(t, i) == i + |w|
    decreases |w|
  {
    if w != "" {
      AtHead(t, i, w);
      SkipBlank(t, i + 1, w[1..]);
    }
  }

  lemma {:induction false} ScanRun(t: string, i: nat, w: string)
    requires At(t, i, w) && AllDigits(w) && !IsDigit(Peek(t, i + |w|))
    ensures ScanDigits(t, i) == i + |w|
    decreases |w|
  {
    if w != "" {
      AtHead(t, i, w);
      ScanRun(t, i + 1, w[1..]);
    }
  }

  lemma AtPeek(t: string, i: nat, w: string)
    requires At(t, i, w) && w != ""
    ensures Peek(t, i) == w[0]
  {
    AtHead(t, i, w);
  }

  // --------------------------------------------------------------- strings

  lemma FrameSpelling(s: Spelling, rest: string, t: string, i: nat)
    requires s.Valid() && At(t, i, s.Text() + rest)
    ensures At(t, i + |s.Text()|, rest)
    ensures s.Raw? ==> i < |t| && t[i] == s.c
    ensures !s.Raw? ==> i < |t| && t[i] == '\\' && ParseEscape(t, i + 1) == Ok(s.Meaning(), i + |s.Text()|)
  {
    AtConcat(t, i, s.Text(), rest);
    AtHead(t, i, s.Text());
    match s
    case Raw(_) =>
    case Short(e) => AtHead(t, i + 1, [e]);
    case Unicode(h) =>
      assert s.Text()[1..] == "u" + h;
      AtHead(t, i + 1, "u" + h);
      assert ("u" + h)[1..] == h;
      assert t[i + 2..i + 6] == h;
  }

  lemma {:induction false} FrameChars(chars: seq<Spelling>, t: string, i: nat)
    requires ValidChars(chars) && At(t, i, CharsText(chars))
    ensures ParseChars(t, i) == Ok(CharsMeaning(chars), i + |CharsText(chars)|)
    decreases |chars|
  {
    hide ParseEscape, At;
    if chars == [] {
      AtHead(t, i, "\"");
    } else {
      FrameSpelling(chars[0], CharsText(chars[1..]), t, i);
      FrameChars(chars[1..], t, i + |chars[0].Text()|);
    }
  }

  // --------------------------------------------------------------- numbers

  lemma FrameExponent(token: NumToken, t: string, i: nat)
    requires token.WellFormed() && At(t, i, token.ExpText())
    requires !ExtendsNumber(Peek(t, i + |token.ExpText()|))
    ensures ParseExponent(t, i) == Ok(token.exp != "", i + |token.ExpText()|)
  {
    if token.exp != "" {
      var m := token.mark;
      AtConcat(t, i, m, token.exp);
      AtHead(t, i, m);
      AtHead(t, i + |m|, token.exp);
      if |m| == 2 { AtHead(t, i + 1, m[1..]); }
      assert SkipSign(t, i + 1) == i + |m|;
      ScanRun(t, i + |m|, token.exp);
    }
  }

  lemma FrameFraction(token: NumToken, t: string, i: nat)
    requires token.WellFormed() && At(t, i, token.FracText())
    requires Peek(t, i + |token.FracText()|) != '.' && !IsDigit(Peek(t, i + |token.FracText()|))
    ensures ParseFraction(t, i) == Ok(token.frac != "", i + |token.FracText()|)
  {
    if token.frac != "" {
      AtHead(t, i, token.FracText());
      assert token.FracText()[1..] == token.frac;
      AtHead(t, i + 1, token.frac);
      ScanRun(t, i + 1, token.frac);
    }
  }

  /** The character after an optional part is the first of what follows it. */
  lemma PeekExponent(token: NumToken, t: string, i: nat)
    requires token.WellFormed() && At(t, i, token.ExpText())
    requires !ExtendsNumber(Peek(t, i + |token.ExpText()|))
    ensures Peek(t, i) != '.' && !IsDigit(Peek(t, i))
  {
    if token.exp != "" { AtHead(t, i, token.ExpText()); }
  }

  lemma FrameWhole(whole: string, t: string, i: nat)
    requires whole != "" && AllDigits(whole) && (|whole| == 1 || whole[0] != '0')
    requires At(t, i, whole) && !IsDigit(Peek(t, i + |whole|))
    ensures IsDigit(Peek(t, i)) && WholeEnd(t, i) == i + |whole|
  {
    AtHead(t, i, whole);
    ScanRun(t, i, whole);
  }

  /** The pieces of a number token, laid out one after the other. */
  lemma NumberLayout(token: NumToken, t: string, i: nat)
    requires At(t, i, token.Text())
    ensures var a := i + |token.Sign()|;
      var b := a + |token.whole|;
      var c := b + |token.FracText()|;
      && At(t, i, token.Sign()) && At(t, a, token.whole) && At(t, b, token.FracText()) && At(t, c, token.ExpText())
      && c + |token.ExpText()| == i + |token.Text()|
  {
    hide At;
    var s, w, f, e := token.Sign(), token.whole, token.FracText(), token.ExpText();
    AtConcat(t, i, s + w + f, e);
    AtConcat(t, i, s + w, f);
    AtConcat(t, i, s, w);
  }

  lemma FrameNumber(stod: Stod, token: NumToken, t: string, i: nat)
    requires token.Valid() && token.Fits(stod) && At(t, i, token.Text())
    requires !ExtendsNumber(Peek(t, i + |token.Text()|))
    ensures ParseNumber(stod, t, i) == Ok(Meaning(NumberText(token)), i + |token.Text()|)
  {
    hide NumToken.Text, NumToken.WellFormed, ParseNumber;
    FrameToken(stod, token, t, i);
  }

  /** A whole token is scanned, whatever becomes of it. */
  lemma FrameToken(stod: Stod, token: NumToken, t: string, i: nat)
    requires token.Valid() && At(t, i, token.Text())
    requires !ExtendsNumber(Peek(t, i + |token.Text()|))
    ensures ParseNumber(stod, t, i) ==
      if token.Integral() then Ok(Number(Integral(token.Value())), i + |token.Text()|)
      else Converted(stod, token.Text(), i + |token.Text()|)
  {
    hide NumToken.Text, NumToken.ExpText, NumToken.FracText, AllDigits, IsMark, ParseNumber, WholeEnd, ParseFraction, ParseExponent, Signed, InInt64;
    NumberLayout(token, t, i);
    var a := i + |token.Sign()|;
    var b := a + |token.whole|;
    var c := b + |token.FracText()|;
    FrameExponent(token, t, c);
    PeekExponent(token, t, c);
    FrameFraction(token, t, b);
    PeekFraction(token, t, b);
    FrameWhole(token.whole, t, a);
    assert (Peek(t, i) == '-') == token.minus by { if token.minus { AtHead(t, i, "-"); } }
    assert t[a..b] == token.whole;
    NoParts(token);
    NumberStep(stod, t, i, token.whole, token.frac != "", c, token.exp != "", c + |token.ExpText()|);
  }

  /** What `ParseNumber` answers once the extent of each part is known. */
  lemma NumberStep(stod: Stod, t: string, i: nat, whole: string, hasFraction: bool, c: nat, hasExponent: bool, d: nat)
    requires AllDigits(whole)
    requires var a := if Peek(t, i) == '-' then i + 1 else i;
      && a + |whole| <= |t| && t[a..a + |whole|] == whole && c <= |t| && i <= d <= |t|
      && IsDigit(Peek(t, a)) && WholeEnd(t, a) == a + |whole|
      && ParseFraction(t, a + |whole|) == Ok(hasFraction, c) && ParseExponent(t, c) == Ok(hasExponent, d)
    ensures ParseNumber(stod, t, i) ==
      if hasFraction || hasExponent then Converted(stod, t[i..d], d)
      else if InInt64(Signed(Peek(t, i) == '-', whole)) then Ok(Number(Integral(Signed(Peek(t, i) == '-', whole))), d)
      else Err("integer must be within the interoperable safe range")
  {
    hide WholeEnd, ParseFraction, ParseExponent, InInt64, AllDigits, Signed;
  }

  lemma PeekFraction(token: NumToken, t: string, i: nat)
    requires At(t, i, token.FracText()) && !IsDigit(Peek(t, i + |token.FracText()|))
    ensures !IsDigit(Peek(t, i))
  {
    if token.frac != "" { AtHead(t, i, token.FracText()); }
  }

  lemma NoParts(token: NumToken)
    ensures token.frac == "" ==> token.FracText() == ""
    ensures token.exp == "" ==> token.ExpText() == ""
  {
  }

  // ---------------------------------------------------------------- values

  /** The first character of a value's text decides which parser runs. */
  lemma FirstChar(c: Syntax)
    requires Valid(c)
    ensures TextOf(c) != "" && !IsSpace(TextOf(c)[0]) && !EndsValue(TextOf(c)[0])
    ensures TextOf(c)[0] == match c
      case NulText => 'n'
      case BoolText(flag) => if flag then 't' else 'f'
      case NumberText(token) => if token.minus then '-' else token.whole[0]
      case StringText(_) => '"'
      case ArrayText(_, _) => '['
      case ObjectText(_, _) => '{'
  {
  }

  lemma AfterBracket(c: Syntax)
    requires c.StringText? || c.ArrayText? || c.ObjectText?
    ensures TextOf(c)[1..] == match c
      case StringText(chars) => CharsText(chars)
      case ArrayText(blank, items) => if items == [] then blank + "]" else ItemsText(items)
      case ObjectText(blank, members) => if members == [] then blank + "}" else MembersText(members)
  {
  }

  lemma FrameBool(flag: bool, t: string, i: nat)
    requires At(t, i, if flag then "true" else "false")
    ensures ParseBool(t, i) == Ok(Boolean(flag), i + if flag then 4 else 5)
  {
    assert !flag ==> t[i..i + 5][0] == 'f';
    assert i + 4 <= |t| ==> t[i..i + 4][0] == t[i];
  }

  lemma {:induction false} FrameBare(stod: Stod, c: Syntax, t: string, i: nat)
    requires Valid(c) && Fits(stod, c) && At(t, i, TextOf(c))
    requires c.NumberText? ==> !ExtendsNumber(Peek(t, i + |TextOf(c)|))
    ensures ParseBare(stod, t, i) == Ok(Meaning(c), i + |TextOf(c)|)
    decreases c, 1
  {
    hide At, AllSpace, ParseChars, ParseNumber, ParseArray, ParseObject, ItemsText, MembersText;
    FirstChar(c);
    AtHead(t, i, TextOf(c));
    if c.StringText? || c.ArrayText? || c.ObjectText? { AfterBracket(c); }
    match c
    case NulText =>
    case BoolText(flag) => FrameBool(flag, t, i);
    case NumberText(token) => FrameNumber(stod, token, t, i);
    case StringText(chars) => FrameChars(chars, t, i + 1);
    case ArrayText(blank, items) => FrameArray(stod, blank, items, t, i);
    case ObjectText(blank, members) => FrameObject(stod, blank, members, t, i);
  }

  lemma {:induction false} FrameArray(stod: Stod, blank: string, items: seq<ItemText>, t: string, i: nat)
    requires AllSpace(blank) && ValidItems(items) && ItemsFit(stod, items) && i < |t|
    requires At(t, i + 1, if items == [] then blank + "]" else ItemsText(items))
    ensures ParseArray(stod, t, i) == Ok(Array(ItemsMeaning(items)), i + 1 + if items == [] then |blank| + 1 else |ItemsText(items)|)
    decreases items, 1
  {
    hide At, AllSpace, Skip, ParseItems, ItemsText;
    if items == [] {
      FrameEmpty(blank, "]", t, i + 1);
    } else {
      FrameItems(stod, items, t, i + 1);
      ItemsOpen(items, t, i + 1);
      ItemsSkip(stod, t, i + 1);
    }
  }

  lemma {:induction false} FrameObject(stod: Stod, blank: string, members: seq<MemberText>, t: string, i: nat)
    requires AllSpace(blank) && ValidMembers(members) && MembersFit(stod, members) && i < |t|
    requires At(t, i + 1, if members == [] then blank + "}" else MembersText(members))
    ensures ParseObject(stod, t, i) == Ok(Object(MembersMeaning(members)), i + 1 + if members == [] then |blank| + 1 else |MembersText(members)|)
    decreases members, 1
  {
    hide At, AllSpace, Skip, ParseMembers, MembersText;
    if members == [] {
      FrameEmpty(blank, "}", t, i + 1);
    } else {
      FrameMembers(stod, members, t, i + 1);
      MembersOpen(members, t, i + 1);
      MembersSkip(stod, t, i + 1);
    }
  }

  /** White space before a closing bracket, a quote or a colon. */
  lemma FrameEmpty(blank: string, close: string, t: string, i: nat)
    requires AllSpace(blank) && |close| == 1 && !IsSpace(close[0]) && At(t, i, blank + close)
    ensures Skip(t, i) == i + |blank| && Peek(t, i + |blank|) == close[0]
  {
    hide At;
    AtConcat(t, i, blank, close);
    AtPeek(t, i + |blank|, close);
    SkipBlank(t, i, blank);
  }

  /** A value with white space on both sides, followed by a separator. */
  lemma {:induction false} FrameValue(stod: Stod, before: string, c: Syntax, after: string, t: string, i: nat)
    requires AllSpace(before) && Valid(c) && Fits(stod, c) && AllSpace(after)
    requires At(t, i, before + TextOf(c) + after)
    requires EndsValue(Peek(t, i + |before + TextOf(c) + after|))
    ensures ParseValue(stod, t, i) == Ok(Meaning(c), i + |before + TextOf(c)|)
    ensures Skip(t, i + |before + TextOf(c)|) == i + |before + TextOf(c) + after|
    decreases c, 2
  {
    hide At, Skip, ParseBare, TextOf, Meaning, Valid;
    AtConcat(t, i, before + TextOf(c), after);
    AtConcat(t, i, before, TextOf(c));
    var j, n := i + |before|, i + |before + TextOf(c)|;
    FirstChar(c);
    AtPeek(t, j, TextOf(c));
    SkipBlank(t, i, before);
    SkipBlank(t, n, after);
    assert !ExtendsNumber(Peek(t, n)) by { if after != "" { AtPeek(t, n, after); } }
    FrameBare(stod, c, t, j);
  }

  /** The first element's text, up to the separator after it. */
  function FirstItem(items: seq<ItemText>): string
    requires items != []
  {
    items[0].before + TextOf(items[0].value) + items[0].after
  }

  lemma ItemsLayout(items: seq<ItemText>, t: string, i: nat)
    requires items != [] && At(t, i, ItemsText(items))
    ensures At(t, i, FirstItem(items))
    ensures var sep := i + |FirstItem(items)|;
      if |items| == 1 then Peek(t, sep) == ']' && i + |ItemsText(items)| == sep + 1
      else Peek(t, sep) == ',' && At(t, sep + 1, ItemsText(items[1..]))
           && i + |ItemsText(items)| == sep + 1 + |ItemsText(items[1..])|
  {
    hide At, TextOf;
    var tail := if |items| == 1 then "]" else "," + ItemsText(items[1..]);
    AtConcat(t, i, FirstItem(items), tail);
    AtHead(t, i + |FirstItem(items)|, tail);
    assert |items| > 1 ==> tail[1..] == ItemsText(items[1..]);
  }

  lemma ItemsStep(stod: Stod, t: string, i: nat, value: Json, n: nat)
    requires i <= |t| && n <= |t| && ParseValue(stod, t, i) == Ok(value, n)
    ensures var sep := Skip(t, n);
      && (Peek(t, sep) == ']' ==> ParseItems(stod, t, i) == Ok([value], sep + 1))
      && (Peek(t, sep) == ',' ==> ParseItems(stod, t, i) == After([value], ParseItems(stod, t, sep + 1)))
  {
    hide ParseValue, Skip;
  }

  lemma {:induction false} FrameItems(stod: Stod, items: seq<ItemText>, t: string, i: nat)
    requires items != [] && ValidItems(items) && ItemsFit(stod, items) && At(t, i, ItemsText(items))
    ensures ParseItems(stod, t, i) == Ok(ItemsMeaning(items), i + |ItemsText(items)|)
    decreases items, 0
  {
    hide At, AllSpace, Skip, ParseItems, ParseValue, ItemsText, TextOf, Meaning, Valid;
    var item := items[0];
    ItemsLayout(items, t, i);
    FrameValue(stod, item.before, item.value, item.after, t, i);
    ItemsStep(stod, t, i, Meaning(item.value), i + |item.before + TextOf(item.value)|);
    if |items| > 1 {
      FrameItems(stod, items[1..], t, i + |FirstItem(items)| + 1);
    } else {
      assert ItemsMeaning(items) == [Meaning(item.value)];
    }
  }

  lemma {:induction false} FrameKey(m: MemberText, t: string, i: nat)
    requires ValidMember(m) && At(t, i, KeyText(m))
    ensures ParseKey(t, i) == Ok(CharsMeaning(m.key), i + |KeyText(m)|)
    ensures Peek(t, Skip(t, i)) == '"'
  {
    hide At, AllSpace, Skip, ParseChars, CharsText, ValidChars;
    var chars, colon := CharsText(m.key), m.colon + ":";
    AtConcat(t, i, m.before + "\"", chars + colon);
    FrameEmpty(m.before, "\"", t, i);
    var j := i + |m.before| + 1;
    AtConcat(t, j, chars, colon);
    FrameChars(m.key, t, j);
    FrameEmpty(m.colon, ":", t, j + |chars|);
  }

  function FirstValue(members: seq<MemberText>): string
    requires members != []
  {
    members[0].gap + TextOf(members[0].value) + members[0].after
  }

  lemma MembersLayout(members: seq<MemberText>, t: string, i: nat)
    requires members != [] && At(t, i, MembersText(members))
    ensures At(t, i, KeyText(members[0]))
    ensures var v := i + |KeyText(members[0])|;
      var sep := v + |FirstValue(members)|;
      && At(t, v, FirstValue(members))
      && if |members| == 1 then Peek(t, sep) == '}' && i + |MembersText(members)| == sep + 1
         else Peek(t, sep) == ',' && At(t, sep + 1, MembersText(members[1..]))
              && i + |MembersText(members)| == sep + 1 + |MembersText(members[1..])|
  {
    hide At, TextOf, KeyText;
    var first := FirstValue(members);
    var tail := if |members| == 1 then "}" else "," + MembersText(members[1..]);
    AtConcat(t, i, KeyText(members[0]), first + tail);
    var v := i + |KeyText(members[0])|;
    AtConcat(t, v, first, tail);
    AtHead(t, v + |first|, tail);
    assert |members| > 1 ==> tail[1..] == MembersText(members[1..]);
  }

  lemma MembersStep(stod: Stod, t: string, i: nat, key: string, k: nat, value: Json, n: nat)
    requires i <= |t| && k <= |t| && n <= |t|
    requires ParseKey(t, i) == Ok(key, k) && ParseValue(stod, t, k) == Ok(value, n)
    ensures var sep := Skip(t, n);
      && (Peek(t, sep) == '}' ==> ParseMembers(stod, t, i) == Ok([Member(key, value)], sep + 1))
      && (Peek(t, sep) == ',' ==> ParseMembers(stod, t, i) == After([Member(key, value)], ParseMembers(stod, t, sep + 1)))
  {
    hide ParseKey, ParseValue, Skip;
  }

  lemma {:induction false} FrameMembers(stod: Stod, members: seq<MemberText>, t: string, i: nat)
    requires members != [] && ValidMembers(members) && MembersFit(stod, members) && At(t, i, MembersText(members))
    ensures ParseMembers(stod, t, i) == Ok(MembersMeaning(members), i + |MembersText(members)|)
    decreases members, 0
  {
    hide At, AllSpace, Skip, ParseMembers, ParseKey, ParseValue, MembersText, KeyText, TextOf, Meaning, Valid;
    var m := members[0];
    MembersLayout(members, t, i);
    FrameKey(m, t, i);
    var v := i + |KeyText(m)|;
    FrameValue(stod, m.gap, m.value, m.after, t, v);
    MembersStep(stod, t, i, CharsMeaning(m.key), v, Meaning(m.value), v + |m.gap + TextOf(m.value)|);
    if |members| > 1 {
      FrameMembers(stod, members[1..], t, v + |FirstValue(members)| + 1);
    } else {
      assert MembersMeaning(members) == [Member(CharsMeaning(m.key), Meaning(m.value))];
    }
  }

  lemma ItemsOpen(items: seq<ItemText>, t: string, i: nat)
    requires items != [] && ValidItems(items) && At(t, i, ItemsText(items))
    ensures Peek(t, Skip(t, i)) != ']'
  {
    hide At, ItemsText, TextOf, Valid, Skip;
    var item := items[0];
    ItemsLayout(items, t, i);
    AtConcat(t, i, item.before + TextOf(item.value), item.after);
    AtConcat(t, i, item.before, TextOf(item.value));
    FirstChar(item.value);
    AtPeek(t, i + |item.before|, TextOf(item.value));
    SkipBlank(t, i, item.before);
  }

  lemma MembersOpen(members: seq<MemberText>, t: string, i: nat)
    requires members != [] && ValidMembers(members) && At(t, i, MembersText(members))
    ensures Peek(t, Skip(t, i)) != '}'
  {
    hide At, MembersText, KeyText, Skip, ParseKey, Valid;
    MembersLayout(members, t, i);
    FrameKey(members[0], t, i);
  }

  /** Skipping the white space after an opening bracket twice changes nothing. */
  lemma ItemsSkip(stod: Stod, t: string, i: nat)
    requires i <= |t|
    ensures ParseItems(stod, t, Skip(t, i)) == ParseItems(stod, t, i)
  {
    hide Skip, ParseBare;
    SkipTwice(t, i);
  }

  lemma KeySkip(t: string, i: nat)
    requires i <= |t|
    ensures ParseKey(t, Skip(t, i)) == ParseKey(t, i)
  {
    hide Skip, ParseChars;
    SkipTwice(t, i);
  }

  lemma MembersSkip(stod: Stod, t: string, i: nat)
    requires i <= |t|
    ensures ParseMembers(stod, t, Skip(t, i)) == ParseMembers(stod, t, i)
  {
    hide Skip, ParseValue, ParseKey;
    KeySkip(t, i);
  }

  lemma SkipTwice(t: string, i: nat)
    requires i <= |t|
    ensures Skip(t, Skip(t, i)) == Skip(t, i)
  {
  }

  // ------------------------------------------------------------- documents

  /** A document: one value with white space around it. */
  function Document(before: string, c: Syntax, after: string): string {
    before + TextOf(c) + after
  }

  lemma WholeAt(t: string)
    ensures At(t, 0, t)
  {
  }

  /** Completeness: a document of the grammar is accepted, with the value it denotes. */
  lemma DocumentParses(stod: Stod, before: string, c: Syntax, after: string)
    requires AllSpace(before) && Valid(c) && Fits(stod, c) && AllSpace(after)
    ensures ParseJson(stod, Document(before, c, after)) == Success(Meaning(c))
  {
    hide At, TextOf, Valid, Meaning, ParseValue, Skip, AllSpace;
    var t := Document(before, c, after);
    WholeAt(t);
    FrameValue(stod, before, c, after, t, 0);
  }
}
