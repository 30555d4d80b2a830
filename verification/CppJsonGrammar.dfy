/** The language the C++ parser accepts, described by concrete syntax trees that
    record every spelling choice: where white space goes, how each character of
    a string is written, and the exact digits of a number. */
module CppJsonGrammar {
  import opened Text
  import opened CppJson

  /** One character position of a string literal, as spelled. */
  datatype Spelling =
    | Raw(c: char)
    | Short(e: char)
    | Unicode(h: string)
  {
    predicate Valid() {
      match this
      case Raw(c) => c >= ' ' && c != '"' && c != '\\'
      case Short(e) => IsEscape(e)
      case Unicode(h) => IsHex4(h)
    }

    function Text(): string {
      match this
      case Raw(c) => [c]
      case Short(e) => ['\\', e]
      case Unicode(h) => "\\u" + h
    }

    function Meaning(): string
      requires Valid()
    {
      match this
      case Raw(c) => [c]
      case Short(e) => [Unescape(e)]
      case Unicode(h) => Utf8(Hex4(h))
    }
  }

  datatype Syntax =
    | NulText
    | BoolText(flag: bool)
    | NumberText(token: NumToken)
    | StringText(chars: seq<Spelling>)
    | ArrayText(blank: string, items: seq<ItemText>)
    | ObjectText(blank: string, members: seq<MemberText>)

  /** An array element with the white space around it. */
  datatype ItemText = ItemText(before: string, value: Syntax, after: string)

  /** An object member with the white space around its key and its value. */
  datatype MemberText = MemberText(before: string, key: seq<Spelling>, colon: string,
                                   gap: string, value: Syntax, after: string)

  /** A number token: an empty `frac` or `exp` means that part is absent. */
  datatype NumToken = NumToken(minus: bool, whole: string, frac: string, mark: string, exp: string) {
    predicate Integral() { frac == "" && exp == "" }

    function Text(): string {
      Sign() + whole + FracText() + ExpText()
    }
    function Sign(): string { if minus then "-" else "" }
    function FracText(): string { Frac(frac) }
    function ExpText(): string { Exp(mark, exp) }

    predicate WellFormed() {
      && whole != "" && AllDigits(whole) && (|whole| == 1 || whole[0] != '0')
      && AllDigits(frac) && AllDigits(exp)
      && IsMark(mark)
    }

    function Value(): int
      requires WellFormed()
    {
      Signed(minus, whole)
    }

    predicate Valid() {
      WellFormed() && (Integral() ==> InInt64(Value()))
    }

    /** The token is an integer or converts to a finite `double`. */
    predicate Fits(stod: Stod) { Integral() || stod(Text()).Finite? }
  }

  function Frac(frac: string): string { if frac == "" then "" else "." + frac }

  function Exp(mark: string, exp: string): string { if exp == "" then "" else mark + exp }

  predicate IsMark(mark: string) {
    mark in {"e", "E", "e+", "E+", "e-", "E-"}
  }

  predicate AllSpace(s: string) { s == "" || (IsSpace(s[0]) && AllSpace(s[1..])) }

  predicate ValidChars(chars: seq<Spelling>) {
    chars == [] || (chars[0].Valid() && ValidChars(chars[1..]))
  }

  predicate Valid(c: Syntax)
    decreases c, 1
  {
    match c
    case NulText => true
    case BoolText(_) => true
    case NumberText(token) => token.Valid()
    case StringText(chars) => ValidChars(chars)
    case ArrayText(blank, items) => AllSpace(blank) && ValidItems(items)
    case ObjectText(blank, members) => AllSpace(blank) && ValidMembers(members)
  }

  predicate ValidItems(items: seq<ItemText>)
    decreases items, 0
  {
    items == [] ||
    (AllSpace(items[0].before) && Valid(items[0].value) && AllSpace(items[0].after) && ValidItems(items[1..]))
  }

  predicate ValidMembers(members: seq<MemberText>)
    decreases members, 0
  {
    members == [] ||
    (ValidMember(members[0]) && Valid(members[0].value) && ValidMembers(members[1..]))
  }

  /** Everything in a member but its value. */
  predicate ValidMember(m: MemberText) {
    AllSpace(m.before) && ValidChars(m.key) && AllSpace(m.colon) && AllSpace(m.gap) && AllSpace(m.after)
  }

  // ------------------------------------------------------- text of a tree

  function CharsText(chars: seq<Spelling>): string {
    if chars == [] then "\"" else chars[0].Text() + CharsText(chars[1..])
  }

  function TextOf(c: Syntax): string
    decreases c, 1
  {
    match c
    case NulText => "null"
    case BoolText(flag) => if flag then "true" else "false"
    case NumberText(token) => token.Text()
    case StringText(chars) => "\"" + CharsText(chars)
    case ArrayText(blank, items) => "[" + if items == [] then blank + "]" else ItemsText(items)
    case ObjectText(blank, members) => "{" + if members == [] then blank + "}" else MembersText(members)
  }

  function ItemsText(items: seq<ItemText>): string
    requires items != []
    decreases items, 0
  {
    items[0].before + TextOf(items[0].value) + items[0].after +
    if |items| == 1 then "]" else "," + ItemsText(items[1..])
  }

  function MembersText(members: seq<MemberText>): string
    requires members != []
    decreases members, 0
  {
    var m := members[0];
    KeyText(m) + (m.gap + TextOf(m.value) + m.after + if |members| == 1 then "}" else "," + MembersText(members[1..]))
  }

  function KeyText(m: MemberText): string {
    m.before + "\"" + (CharsText(m.key) + (m.colon + ":"))
  }

  // ----------------------------------------------------- value of a tree

  function CharsMeaning(chars: seq<Spelling>): string
    requires ValidChars(chars)
  {
    if chars == [] then "" else chars[0].Meaning() + CharsMeaning(chars[1..])
  }

  function Meaning(c: Syntax): Json
    requires Valid(c)
    decreases c, 1
  {
    match c
    case NulText => Nul
    case BoolText(flag) => Boolean(flag)
    case NumberText(token) =>
      Number(if token.Integral() then Integral(token.Value()) else Token(token.Text()))
    case StringText(chars) => String(CharsMeaning(chars))
    case ArrayText(_, items) => Array(ItemsMeaning(items))
    case ObjectText(_, members) => Object(MembersMeaning(members))
  }

  function ItemsMeaning(items: seq<ItemText>): seq<Json>
    requires ValidItems(items)
    decreases items, 0
  {
    if items == [] then [] else [Meaning(items[0].value)] + ItemsMeaning(items[1..])
  }

  function MembersMeaning(members: seq<MemberText>): seq<Member>
    requires ValidMembers(members)
    decreases members, 0
  {
    if members == [] then []
    else [Member(CharsMeaning(members[0].key), Meaning(members[0].value))] + MembersMeaning(members[1..])
  }

  // ------------------------------------------------------ convertible trees

  /** Every number of the tree that is not integral converts to a finite `double`. */
  predicate Fits(stod: Stod, c: Syntax)
    decreases c, 1
  {
    match c
    case NumberText(token) => token.Fits(stod)
    case ArrayText(_, items) => ItemsFit(stod, items)
    case ObjectText(_, members) => MembersFit(stod, members)
    case _ => true
  }

  predicate ItemsFit(stod: Stod, items: seq<ItemText>)
    decreases items, 0
  {
    items == [] || (Fits(stod, items[0].value) && ItemsFit(stod, items[1..]))
  }

  predicate MembersFit(stod: Stod, members: seq<MemberText>)
    decreases members, 0
  {
    members == [] || (Fits(stod, members[0].value) && MembersFit(stod, members[1..]))
  }

  /** Every numeral of the value that is kept as a token converts to a finite `double`. */
  predicate Convertible(stod: Stod, v: Json)
    decreases v, 1
  {
    match v
    case Number(Token(text)) => stod(text).Finite?
    case Array(items) => ItemsConvertible(stod, items)
    case Object(members) => MembersConvertible(stod, members)
    case _ => true
  }

  predicate ItemsConvertible(stod: Stod, items: seq<Json>)
    decreases items, 0
  {
    items == [] || (Convertible(stod, items[0]) && ItemsConvertible(stod, items[1..]))
  }

  predicate MembersConvertible(stod: Stod, members: seq<Member>)
    decreases members, 0
  {
    members == [] || (Convertible(stod, members[0].value) && MembersConvertible(stod, members[1..]))
  }

  /** Whether a tree is convertible can be read off its meaning. */
  lemma {:induction false} FitsByMeaning(stod: Stod, c: Syntax)
    requires Valid(c)
    ensures Fits(stod, c) <==> Convertible(stod, Meaning(c))
    decreases c, 1
  {
    match c
    case ArrayText(_, items) => ItemsFitByMeaning(stod, items);
    case ObjectText(_, members) => MembersFitByMeaning(stod, members);
    case _ =>
  }

  lemma {:induction false} ItemsFitByMeaning(stod: Stod, items: seq<ItemText>)
    requires ValidItems(items)
    ensures ItemsFit(stod, items) <==> ItemsConvertible(stod, ItemsMeaning(items))
    decreases items, 0
  {
    if items != [] {
      FitsByMeaning(stod, items[0].value);
      ItemsFitByMeaning(stod, items[1..]);
      assert ItemsMeaning(items)[1..] == ItemsMeaning(items[1..]);
    }
  }

  lemma {:induction false} MembersFitByMeaning(stod: Stod, members: seq<MemberText>)
    requires ValidMembers(members)
    ensures MembersFit(stod, members) <==> MembersConvertible(stod, MembersMeaning(members))
    decreases members, 0
  {
    if members != [] {
      FitsByMeaning(stod, members[0].value);
      MembersFitByMeaning(stod, members[1..]);
      assert MembersMeaning(members)[1..] == MembersMeaning(members[1..]);
    }
  }
}
