/** The converse of completeness: whatever the parser accepts is a text of the
    grammar, and the value it returns is the one that text denotes. */
module CppJsonSound {
  import opened Text
  import opened CppJson
  import opened CppJsonGrammar
  import opened CppJsonComplete

  lemma {:induction false} SkippedIsSpace(t: string, i: nat)
    requires i <= |t|
    ensures AllSpace(t[i..Skip(t, i)])
    decreases |t| - i
  {
    if i < |t| && IsSpace(t[i]) {
      SkippedIsSpace(t, i + 1);
      assert t[i..Skip(t, i)][1..] == t[i + 1..Skip(t, i + 1)];
    }
  }

  /** The white space the parser skips at `i`. */
  function Blank(t: string, i: nat): (w: string)
    requires i <= |t|
    ensures AllSpace(w) && At(t, i, w) && i + |w| == Skip(t, i)
  {
    SkippedIsSpace(t, i);
    t[i..Skip(t, i)]
  }

  lemma AtChar(t: string, i: nat, c: char)
    requires Peek(t, i) == c && c != '\0'
    ensures At(t, i, [c])
  {
  }

  // --------------------------------------------------------------- strings

  lemma SpellingOf(t: string, i: nat) returns (s: Spelling)
    requires i < |t| && t[i] == '\\' && ParseEscape(t, i + 1).Ok?
    ensures s.Valid() && At(t, i, s.Text()) && ParseEscape(t, i + 1) == Ok(s.Meaning(), i + |s.Text()|)
  {
    if t[i + 1] == 'u' {
      s := Unicode(t[i + 2..i + 6]);
      assert t[i..i + 6] == "\\u" + t[i + 2..i + 6];
    } else {
      s := Short(t[i + 1]);
    }
  }

  lemma {:induction false} CharsOf(t: string, i: nat) returns (chars: seq<Spelling>)
    requires i <= |t| && ParseChars(t, i).Ok?
    ensures ValidChars(chars) && At(t, i, CharsText(chars))
    ensures ParseChars(t, i) == Ok(CharsMeaning(chars), i + |CharsText(chars)|)
    decreases |t| - i
  {
    hide At, ParseEscape;
    if t[i] == '"' {
      AtChar(t, i, '"');
      return [];
    }
    var s: Spelling, n: nat;
    if t[i] == '\\' {
      s := SpellingOf(t, i);
      n := i + |s.Text()|;
    } else {
      s, n := Raw(t[i]), i + 1;
      AtChar(t, i, t[i]);
    }
    var rest := CharsOf(t, n);
    chars := [s] + rest;
    AtJoin(t, i, s.Text(), CharsText(rest));
    assert CharsText(chars) == s.Text() + CharsText(rest);
  }

  // --------------------------------------------------------------- numbers

  lemma FractionOf(t: string, i: nat) returns (frac: string)
    requires i <= |t| && ParseFraction(t, i).Ok?
    ensures AllDigits(frac)
    ensures ParseFraction(t, i) == Ok(frac != "", i + |Frac(frac)|) && At(t, i, Frac(frac))
  {
    if Peek(t, i) == '.' {
      ScannedDigits(t, i + 1);
      frac := t[i + 1..ScanDigits(t, i + 1)];
      assert frac != "";
    } else {
      frac := "";
    }
  }

  lemma ExponentOf(t: string, i: nat) returns (mark: string, exp: string)
    requires i <= |t| && ParseExponent(t, i).Ok?
    ensures AllDigits(exp) && IsMark(mark)
    ensures ParseExponent(t, i) == Ok(exp != "", i + |Exp(mark, exp)|) && At(t, i, Exp(mark, exp))
  {
    mark, exp := "e", "";
    if Peek(t, i) == 'e' || Peek(t, i) == 'E' {
      var d := SkipSign(t, i + 1);
      ScannedDigits(t, d);
      mark, exp := t[i..d], t[d..ScanDigits(t, d)];
      assert exp != "";
      assert mark == if d == i + 1 then [t[i]] else [t[i], t[i + 1]];
      AtJoin(t, i, mark, exp);
    }
  }

  lemma WholeOf(t: string, i: nat) returns (whole: string)
    requires IsDigit(Peek(t, i))
    ensures whole != "" && AllDigits(whole) && (|whole| == 1 || whole[0] != '0')
    ensures At(t, i, whole) && WholeEnd(t, i) == i + |whole|
  {
    whole := t[i..WholeEnd(t, i)];
  }

  lemma TokenParts(token: NumToken, t: string, i: nat)
    requires var a := i + |token.Sign()|;
      var b := a + |token.whole|;
      var c := b + |token.FracText()|;
      At(t, i, token.Sign()) && At(t, a, token.whole) && At(t, b, token.FracText()) && At(t, c, token.ExpText())
    ensures At(t, i, token.Text())
    ensures i + |token.Text()| == i + |token.Sign()| + |token.whole| + |token.FracText()| + |token.ExpText()|
  {
    hide At;
    AtJoin(t, i, token.Sign(), token.whole);
    AtJoin(t, i, token.Sign() + token.whole, token.FracText());
    AtJoin(t, i, token.Sign() + token.whole + token.FracText(), token.ExpText());
  }

  /** What must have held for `ParseNumber` to succeed. */
  lemma NumberParts(stod: Stod, t: string, i: nat)
    requires i <= |t| && ParseNumber(stod, t, i).Ok?
    ensures var a := if Peek(t, i) == '-' then i + 1 else i;
      && IsDigit(Peek(t, a))
      && ParseFraction(t, WholeEnd(t, a)).Ok?
      && ParseExponent(t, ParseFraction(t, WholeEnd(t, a)).next).Ok?
  {
    hide WholeEnd, ParseFraction, ParseExponent, Signed, InInt64;
  }

  /** The token the parser scanned, piece by piece. */
  lemma TokenShape(stod: Stod, t: string, i: nat) returns (token: NumToken)
    requires i <= |t| && ParseNumber(stod, t, i).Ok?
    ensures token.WellFormed() && token.minus == (Peek(t, i) == '-')
    ensures var a := i + |token.Sign()|;
      var b := a + |token.whole|;
      var c := b + |token.FracText()|;
      && At(t, i, token.Sign()) && At(t, a, token.whole) && At(t, b, token.FracText()) && At(t, c, token.ExpText())
      && IsDigit(Peek(t, a)) && WholeEnd(t, a) == b
      && ParseFraction(t, b) == Ok(token.frac != "", c)
      && ParseExponent(t, c) == Ok(token.exp != "", c + |token.ExpText()|)
  {
    hide At, AllDigits, IsMark, WholeEnd, ParseNumber, ParseFraction, ParseExponent, Signed, InInt64, IsDigit, Frac, Exp;
    NumberParts(stod, t, i);
    var minus := Peek(t, i) == '-';
    if minus { AtChar(t, i, '-'); } else { AtNothing(t, i); }
    var a := if minus then i + 1 else i;
    var whole := WholeOf(t, a);
    var frac := FractionOf(t, a + |whole|);
    var mark, exp := ExponentOf(t, ParseFraction(t, a + |whole|).next);
    token := NumToken(minus, whole, frac, mark, exp);
  }

  lemma TokenOf(stod: Stod, t: string, i: nat) returns (token: NumToken)
    requires i <= |t| && ParseNumber(stod, t, i).Ok?
    ensures token.Valid() && token.Fits(stod) && At(t, i, token.Text())
    ensures ParseNumber(stod, t, i) == Ok(Meaning(NumberText(token)), i + |token.Text()|)
  {
    hide At, AllDigits, IsMark, WholeEnd, ParseNumber, ParseFraction, ParseExponent, Signed, InInt64, IsDigit,
         NumToken.Text, NumToken.FracText, NumToken.ExpText;
    token := TokenShape(stod, t, i);
    var a := i + |token.Sign()|;
    var c := a + |token.whole| + |token.FracText()|;
    SliceOf(t, a, token.whole);
    TokenParts(token, t, i);
    SliceOf(t, i, token.Text());
    NumberStep(stod, t, i, token.whole, token.frac != "", c, token.exp != "", c + |token.ExpText()|);
  }

  lemma AtNothing(t: string, i: nat)
    requires i <= |t|
    ensures At(t, i, "")
  {
  }

  lemma SliceOf(t: string, i: nat, w: string)
    requires At(t, i, w)
    ensures i + |w| <= |t| && t[i..i + |w|] == w
  {
  }

  // ---------------------------------------------------------------- values

  lemma {:induction false} SyntaxOf(stod: Stod, t: string, i: nat) returns (c: Syntax)
    requires i <= |t| && ParseBare(stod, t, i).Ok?
    ensures Valid(c) && Fits(stod, c) && At(t, i, TextOf(c))
    ensures ParseBare(stod, t, i) == Ok(Meaning(c), i + |TextOf(c)|)
    decreases |t| - i, 3
  {
    var first := Peek(t, i);
    if first == '{' {
      c := ObjectOf(stod, t, i);
    } else if first == '[' {
      c := ArrayOf(stod, t, i);
    } else if first == '"' {
      var chars := CharsOf(t, i + 1);
      c := StringText(chars);
      AtChar(t, i, '"');
      AtJoin(t, i, "\"", CharsText(chars));
    } else if first == 't' || first == 'f' {
      c := BoolText(At(t, i, "true"));
    } else if first == 'n' {
      c := NulText;
    } else {
      var token := TokenOf(stod, t, i);
      c := NumberText(token);
    }
  }

  /** A value with the white space the parser skips on both sides of it. */
  lemma {:induction false} ItemOf(stod: Stod, t: string, i: nat) returns (item: ItemText)
    requires i <= |t| && ParseValue(stod, t, i).Ok?
    ensures AllSpace(item.before) && Valid(item.value) && Fits(stod, item.value) && AllSpace(item.after)
    ensures At(t, i, item.before + TextOf(item.value) + item.after)
    ensures ParseValue(stod, t, i) == Ok(Meaning(item.value), i + |item.before + TextOf(item.value)|)
    ensures Skip(t, ParseValue(stod, t, i).next) == i + |item.before + TextOf(item.value) + item.after|
    decreases |t| - i, 4
  {
    hide At, AllSpace, Skip, ParseBare, Valid, TextOf, Meaning;
    var before := Blank(t, i);
    var c := SyntaxOf(stod, t, Skip(t, i));
    var after := Blank(t, ParseValue(stod, t, i).next);
    AtJoin(t, i, before, TextOf(c));
    AtJoin(t, i, before + TextOf(c), after);
    item := ItemText(before, c, after);
  }

  lemma {:induction false} ArrayOf(stod: Stod, t: string, i: nat) returns (c: Syntax)
    requires i < |t| && t[i] == '[' && ParseArray(stod, t, i).Ok?
    ensures Valid(c) && Fits(stod, c) && At(t, i, TextOf(c))
    ensures ParseArray(stod, t, i) == Ok(Meaning(c), i + |TextOf(c)|)
    decreases |t| - i, 2
  {
    hide At, AllSpace, Skip, ParseItems, ItemsText, ItemsMeaning, ValidItems;
    AtChar(t, i, '[');
    var blank := Blank(t, i + 1);
    if Peek(t, Skip(t, i + 1)) == ']' {
      c := ArrayText(blank, []);
      AtChar(t, Skip(t, i + 1), ']');
      AtJoin(t, i + 1, blank, "]");
      AtJoin(t, i, "[", blank + "]");
      assert ItemsMeaning([]) == [] by { NoItems(stod); }
    } else {
      ItemsSkip(stod, t, i + 1);
      var items := ItemsOf(stod, t, i + 1);
      c := ArrayText("", items);
      assert AllSpace("") by { NoItems(stod); }
      AtJoin(t, i, "[", ItemsText(items));
    }
    assert ValidItems([]) by { NoItems(stod); }
  }

  lemma NoItems(stod: Stod)
    ensures ItemsMeaning([]) == [] && MembersMeaning([]) == []
    ensures ValidItems([]) && ValidMembers([]) && AllSpace("")
    ensures ItemsFit(stod, []) && MembersFit(stod, [])
  {
  }

  lemma {:induction false} ItemsOf(stod: Stod, t: string, i: nat) returns (items: seq<ItemText>)
    requires i <= |t| && ParseItems(stod, t, i).Ok?
    ensures items != [] && ValidItems(items) && ItemsFit(stod, items) && At(t, i, ItemsText(items))
    ensures ParseItems(stod, t, i) == Ok(ItemsMeaning(items), i + |ItemsText(items)|)
    decreases |t| - i, 5
  {
    hide At, AllSpace, Skip, ParseValue, Valid, TextOf, Meaning, Peek;
    var item := ItemOf(stod, t, i);
    var first := item.before + TextOf(item.value) + item.after;
    var sep := Skip(t, ParseValue(stod, t, i).next);
    AtChar(t, sep, Peek(t, sep));
    if Peek(t, sep) == ']' {
      items := [item];
      AtJoin(t, i, first, "]");
      assert ItemsText(items) == first + "]";
      assert ItemsMeaning(items) == [Meaning(item.value)];
    } else {
      var rest := ItemsOf(stod, t, sep + 1);
      items := [item] + rest;
      AtJoin(t, sep, ",", ItemsText(rest));
      AtJoin(t, i, first, "," + ItemsText(rest));
      assert items[1..] == rest;
      assert ItemsText(items) == first + ("," + ItemsText(rest));
    }
  }

  lemma KeyOf(t: string, i: nat) returns (m: MemberText)
    requires i <= |t| && ParseKey(t, i).Ok?
    ensures ValidMember(m) && m.gap == "" && m.after == ""
    ensures At(t, i, KeyText(m)) && ParseKey(t, i) == Ok(CharsMeaning(m.key), i + |KeyText(m)|)
  {
    hide At, Skip, ParseChars, ValidChars, CharsText, CharsMeaning;
    var before := Blank(t, i);
    var j := Skip(t, i);
    var key := CharsOf(t, j + 1);
    var k := j + 1 + |CharsText(key)|;
    var colon := Blank(t, k);
    AtChar(t, j, '"');
    AtChar(t, Skip(t, k), ':');
    m := MemberText(before, key, colon, "", NulText, "");
    KeyParts(m, t, i);
    assert AllSpace("");
  }

  lemma KeyParts(m: MemberText, t: string, i: nat)
    requires var j := i + |m.before|; var k := j + 1 + |CharsText(m.key)|;
      && At(t, i, m.before) && At(t, j, "\"") && At(t, j + 1, CharsText(m.key))
      && At(t, k, m.colon) && At(t, k + |m.colon|, ":")
    ensures At(t, i, KeyText(m))
    ensures |KeyText(m)| == |m.before| + 1 + |CharsText(m.key)| + |m.colon| + 1
  {
    hide At, CharsText;
    var j := i + |m.before|;
    var k := j + 1 + |CharsText(m.key)|;
    AtJoin(t, i, m.before, "\"");
    AtJoin(t, k, m.colon, ":");
    AtJoin(t, j + 1, CharsText(m.key), m.colon + ":");
    AtJoin(t, i, m.before + "\"", CharsText(m.key) + (m.colon + ":"));
  }

  lemma {:induction false} MembersOf(stod: Stod, t: string, i: nat) returns (members: seq<MemberText>)
    requires i <= |t| && ParseMembers(stod, t, i).Ok?
    ensures members != [] && ValidMembers(members) && MembersFit(stod, members) && At(t, i, MembersText(members))
    ensures ParseMembers(stod, t, i) == Ok(MembersMeaning(members), i + |MembersText(members)|)
    decreases |t| - i, 5
  {
    hide At, AllSpace, Skip, ParseKey, ParseValue, Valid, TextOf, Meaning, ValidChars, CharsText, CharsMeaning;
    var start := KeyOf(t, i);
    var k := i + |KeyText(start)|;
    var item := ItemOf(stod, t, k);
    var m := start.(gap := item.before, value := item.value, after := item.after);
    var first := item.before + TextOf(item.value) + item.after;
    var sep := Skip(t, ParseValue(stod, t, k).next);
    AtChar(t, sep, Peek(t, sep));
    if Peek(t, sep) == '}' {
      members := [m];
      AtJoin(t, k, first, "}");
      AtJoin(t, i, KeyText(m), first + "}");
      assert MembersText(members) == KeyText(m) + (first + "}");
      assert MembersMeaning(members) == [Member(CharsMeaning(m.key), Meaning(m.value))];
    } else {
      var rest := MembersOf(stod, t, sep + 1);
      members := [m] + rest;
      AtJoin(t, sep, ",", MembersText(rest));
      AtJoin(t, k, first, "," + MembersText(rest));
      AtJoin(t, i, KeyText(m), first + ("," + MembersText(rest)));
      assert members[1..] == rest;
      assert MembersText(members) == KeyText(m) + (first + ("," + MembersText(rest)));
    }
  }

  lemma {:induction false} ObjectOf(stod: Stod, t: string, i: nat) returns (c: Syntax)
    requires i < |t| && t[i] == '{' && ParseObject(stod, t, i).Ok?
    ensures Valid(c) && Fits(stod, c) && At(t, i, TextOf(c))
    ensures ParseObject(stod, t, i) == Ok(Meaning(c), i + |TextOf(c)|)
    decreases |t| - i, 2
  {
    hide At, AllSpace, Skip, ParseMembers, MembersText, MembersMeaning, ValidMembers;
    AtChar(t, i, '{');
    var blank := Blank(t, i + 1);
    if Peek(t, Skip(t, i + 1)) == '}' {
      c := ObjectText(blank, []);
      AtChar(t, Skip(t, i + 1), '}');
      AtJoin(t, i + 1, blank, "}");
      AtJoin(t, i, "{", blank + "}");
      assert MembersMeaning([]) == [] by { NoItems(stod); }
    } else {
      MembersSkip(stod, t, i + 1);
      var members := MembersOf(stod, t, i + 1);
      c := ObjectText("", members);
      assert AllSpace("") by { NoItems(stod); }
      AtJoin(t, i, "{", MembersText(members));
    }
    assert ValidMembers([]) by { NoItems(stod); }
  }

  // ------------------------------------------------------------- documents

  /** `t` is a document of the grammar that denotes `v`. */
  ghost predicate Denotes(t: string, v: Json) {
    exists before, c, after ::
      AllSpace(before) && Valid(c) && AllSpace(after) && t == Document(before, c, after) && Meaning(c) == v
  }

  /** The accepted language: `parse_json` returns `v` exactly for the documents that
      denote `v`, provided the numbers of `v` that are not integral convert. */
  lemma AcceptsExactly(stod: Stod, t: string, v: Json)
    ensures ParseJson(stod, t) == Success(v) <==> Denotes(t, v) && Convertible(stod, v)
  {
    hide Valid, Meaning, Fits, Convertible, AllSpace;
    if ParseJson(stod, t) == Success(v) {
      var item := ItemOf(stod, t, 0);
      assert t == Document(item.before, item.value, item.after);
      FitsByMeaning(stod, item.value);
    }
    if Denotes(t, v) && Convertible(stod, v) {
      var before, c, after :|
        AllSpace(before) && Valid(c) && AllSpace(after) && t == Document(before, c, after) && Meaning(c) == v;
      FitsByMeaning(stod, c);
      DocumentParses(stod, before, c, after);
    }
  }

  /** No text denotes two values: where every number converts, both would be the answer. */
  lemma DenotesOne(t: string, v: Json, w: Json)
    requires Denotes(t, v) && Denotes(t, w)
    ensures v == w
  {
    var all: Stod := _ => Finite;
    AllConvertible(v);
    AllConvertible(w);
    AcceptsExactly(all, t, v);
    AcceptsExactly(all, t, w);
  }

  lemma {:induction false} AllConvertible(v: Json)
    ensures Convertible(_ => Finite, v)
    decreases v, 1
  {
    match v
    case Array(items) => ItemsAllConvertible(items);
    case Object(members) => MembersAllConvertible(members);
    case _ =>
  }

  lemma {:induction false} ItemsAllConvertible(items: seq<Json>)
    ensures ItemsConvertible(_ => Finite, items)
    decreases items, 0
  {
    if items != [] {
      AllConvertible(items[0]);
      ItemsAllConvertible(items[1..]);
    }
  }

  lemma {:induction false} MembersAllConvertible(members: seq<Member>)
    ensures MembersConvertible(_ => Finite, members)
    decreases members, 0
  {
    if members != [] {
      AllConvertible(members[0].value);
      MembersAllConvertible(members[1..]);
    }
  }

  /** A document of the grammar is accepted exactly when its numbers convert. */
  lemma DocumentExactly(stod: Stod, before: string, c: Syntax, after: string)
    requires AllSpace(before) && Valid(c) && AllSpace(after)
    ensures ParseJson(stod, Document(before, c, after)) == Success(Meaning(c)) <==> Fits(stod, c)
    ensures ParseJson(stod, Document(before, c, after)).Success? <==> Fits(stod, c)
  {
    var t := Document(before, c, after);
    assert Denotes(t, Meaning(c));
    AcceptsExactly(stod, t, Meaning(c));
    FitsByMeaning(stod, c);
    if ParseJson(stod, t).Success? {
      AcceptsExactly(stod, t, ParseJson(stod, t).value);
      DenotesOne(t, Meaning(c), ParseJson(stod, t).value);
    }
  }
}
