/** What a document may change without changing what it means: white space anywhere
    between tokens, and the way an ASCII character is spelled (section 7 of RFC 8259). */
module CppJsonSpelling {
  import opened Text
  import opened Wrappers
  import opened CppJson
  import opened CppJsonGrammar
  import opened CppJsonComplete
  import opened CppJsonSound

  /** The ASCII character that is spelled raw, by a short escape, or by its code. */
  function Ascii(s: Spelling): Option<char>
    requires s.Valid()
  {
    match s
    case Raw(c) => if c < '\U{80}' then Some(c) else None
    case Short(e) => Some(Unescape(e))
    case Unicode(h) => if Hex4(h) < 0x80 then Some(Hex4(h) as char) else None
  }

  /** An ASCII character means itself, however it is spelled. */
  lemma AsciiSpellings(s: Spelling)
    requires s.Valid() && Ascii(s).Some?
    ensures s.Meaning() == [Ascii(s).value]
  {
  }

  predicate SameChars(a: seq<Spelling>, b: seq<Spelling>)
    requires ValidChars(a) && ValidChars(b)
  {
    if a == [] || b == [] then a == b
    else (a[0] == b[0] || (Ascii(a[0]).Some? && Ascii(a[0]) == Ascii(b[0]))) && SameChars(a[1..], b[1..])
  }

  /** The same tree up to white space and the spelling of ASCII characters. */
  predicate Respelled(c: Syntax, d: Syntax)
    requires Valid(c) && Valid(d)
    decreases c, 1
  {
    match (c, d)
    case (StringText(a), StringText(b)) => SameChars(a, b)
    case (ArrayText(_, a), ArrayText(_, b)) => ItemsRespelled(a, b)
    case (ObjectText(_, a), ObjectText(_, b)) => MembersRespelled(a, b)
    case _ => c == d
  }

  predicate ItemsRespelled(a: seq<ItemText>, b: seq<ItemText>)
    requires ValidItems(a) && ValidItems(b)
    decreases a, 0
  {
    if a == [] || b == [] then a == b
    else Respelled(a[0].value, b[0].value) && ItemsRespelled(a[1..], b[1..])
  }

  predicate MembersRespelled(a: seq<MemberText>, b: seq<MemberText>)
    requires ValidMembers(a) && ValidMembers(b)
    decreases a, 0
  {
    if a == [] || b == [] then a == b
    else SameChars(a[0].key, b[0].key) && Respelled(a[0].value, b[0].value) && MembersRespelled(a[1..], b[1..])
  }

  lemma {:induction false} SameCharsMean(a: seq<Spelling>, b: seq<Spelling>)
    requires ValidChars(a) && ValidChars(b) && SameChars(a, b)
    ensures CharsMeaning(a) == CharsMeaning(b)
  {
    if a != [] && b != [] {
      SameCharsMean(a[1..], b[1..]);
      if a[0] != b[0] {
        AsciiSpellings(a[0]);
        AsciiSpellings(b[0]);
      }
    }
  }

  /** Respelling keeps the meaning, at any depth. */
  lemma {:induction false} RespelledMeans(c: Syntax, d: Syntax)
    requires Valid(c) && Valid(d) && Respelled(c, d)
    ensures Meaning(c) == Meaning(d)
    decreases c, 1
  {
    match (c, d)
    case (StringText(a), StringText(b)) => SameCharsMean(a, b);
    case (ArrayText(_, a), ArrayText(_, b)) => ItemsRespelledMean(a, b);
    case (ObjectText(_, a), ObjectText(_, b)) => MembersRespelledMean(a, b);
    case _ =>
  }

  lemma {:induction false} ItemsRespelledMean(a: seq<ItemText>, b: seq<ItemText>)
    requires ValidItems(a) && ValidItems(b) && ItemsRespelled(a, b)
    ensures ItemsMeaning(a) == ItemsMeaning(b)
    decreases a, 0
  {
    if a != [] && b != [] {
      RespelledMeans(a[0].value, b[0].value);
      ItemsRespelledMean(a[1..], b[1..]);
    }
  }

  lemma {:induction false} MembersRespelledMean(a: seq<MemberText>, b: seq<MemberText>)
    requires ValidMembers(a) && ValidMembers(b) && MembersRespelled(a, b)
    ensures MembersMeaning(a) == MembersMeaning(b)
    decreases a, 0
  {
    if a != [] && b != [] {
      SameCharsMean(a[0].key, b[0].key);
      RespelledMeans(a[0].value, b[0].value);
      MembersRespelledMean(a[1..], b[1..]);
    }
  }

  /** Neither white space nor the spelling of ASCII characters changes what a text is
      parsed to, or whether it is accepted. */
  lemma RespelledDocument(stod: Stod, before: string, c: Syntax, after: string,
                          before': string, d: Syntax, after': string)
    requires AllSpace(before) && Valid(c) && AllSpace(after)
    requires AllSpace(before') && Valid(d) && AllSpace(after') && Respelled(c, d)
    ensures var first, second := ParseJson(stod, Document(before, c, after)), ParseJson(stod, Document(before', d, after'));
      (first.Success? <==> second.Success?) && (first.Success? ==> first == second == Success(Meaning(c)))
  {
    hide Respelled, Valid, Meaning, Fits, Convertible, AllSpace, Document, ParseJson;
    RespelledMeans(c, d);
    FitsByMeaning(stod, c);
    FitsByMeaning(stod, d);
    DocumentExactly(stod, before, c, after);
    DocumentExactly(stod, before', d, after');
  }
}
