/** The Rust host's canonical JSON, which names a request in its fingerprint. */
module CanonicalJson {
  import opened Text
  import CppJsonPrinter

  /** A number is known by the token it is rendered as. Object entries come in the
      order the map yields them. */
  datatype Value =
    | Null
    | Bool(flag: bool)
    | Number(token: string)
    | String(text: string)
    | Array(items: seq<Value>)
    | Object(entries: seq<Entry>)

  datatype Entry = Entry(key: string, value: Value)

  // --------------------------------------------------------- well-formedness

  predicate IsNumberChar(c: char) {
    IsDigit(c) || c == '-' || c == '+' || c == '.' || c == 'e' || c == 'E'
  }

  predicate AllNumberChars(s: string) {
    s == "" || (IsNumberChar(s[0]) && AllNumberChars(s[1..]))
  }

  predicate IsToken(s: string) {
    s != "" && (s[0] == '-' || IsDigit(s[0])) && AllNumberChars(s)
  }

  predicate HasKey(es: seq<Entry>, key: string) {
    exists i :: 0 <= i < |es| && es[i].key == key
  }

  predicate WellFormed(v: Value)
    decreases v, 1
  {
    match v
    case Number(token) => IsToken(token)
    case Array(items) => AllWellFormed(items)
    case Object(entries) => EntriesWellFormed(entries)
    case _ => true
  }

  predicate AllWellFormed(items: seq<Value>)
    decreases items, 0
  {
    items == [] || (WellFormed(items[0]) && AllWellFormed(items[1..]))
  }

  /** A map's keys are distinct. */
  predicate EntriesWellFormed(es: seq<Entry>)
    decreases es, 0
  {
    es == [] || (WellFormed(es[0].value) && !HasKey(es[1..], es[0].key) && EntriesWellFormed(es[1..]))
  }

  // ------------------------------------------------------------- rendering

  /** Section 7 of RFC 8259, with a short escape wherever there is one. */
  function EscapeChar(c: char): string {
    if c == '\U{08}' then "\\b" else if c == '\U{0C}' then "\\f" else CppJsonPrinter.DumpChar(c)
  }

  function Escape(s: string): string {
    if s == "" then "" else EscapeChar(s[0]) + Escape(s[1..])
  }

  function Quote(s: string): string { "\"" + Escape(s) + "\"" }

  function Join(texts: seq<string>): string {
    if texts == [] then "" else if |texts| == 1 then texts[0] else texts[0] + "," + Join(texts[1..])
  }

  /** A rendered entry, ordered by its key. */
  datatype Pair<+T> = Pair(key: string, item: T)

  function Insert<T>(p: Pair<T>, sorted: seq<Pair<T>>): seq<Pair<T>> {
    if sorted == [] || Less(p.key, sorted[0].key) then [p] + sorted else [sorted[0]] + Insert(p, sorted[1..])
  }

  /** What collecting pairs into a `BTreeMap` and reading them back yields. */
  function Sort<T>(pairs: seq<Pair<T>>): seq<Pair<T>> {
    if pairs == [] then [] else Insert(pairs[0], Sort(pairs[1..]))
  }

  function Canonical(v: Value): string
    decreases v, 1
  {
    match v
    case Null => "null"
    case Bool(flag) => if flag then "true" else "false"
    case Number(token) => token
    case String(text) => Quote(text)
    case Array(items) => "[" + Join(Texts(items)) + "]"
    case Object(entries) => "{" + Join(Members(Sort(Rendered(entries)))) + "}"
  }

  function Texts(items: seq<Value>): seq<string>
    decreases items, 0
  {
    if items == [] then [] else [Canonical(items[0])] + Texts(items[1..])
  }

  function Rendered(es: seq<Entry>): seq<Pair<string>>
    decreases es, 0
  {
    if es == [] then [] else [Pair(es[0].key, Canonical(es[0].value))] + Rendered(es[1..])
  }

  function Members(pairs: seq<Pair<string>>): seq<string> {
    if pairs == [] then [] else [Quote(pairs[0].key) + ":" + pairs[0].item] + Members(pairs[1..])
  }

  // ---------------------------------------------------- values, unordered

  /** A JSON value whose objects are maps: equality ignores the order of entries. */
  datatype Meaning =
    | NullMeaning
    | BoolMeaning(flag: bool)
    | NumberMeaning(token: string)
    | StringMeaning(text: string)
    | ArrayMeaning(items: seq<Meaning>)
    | ObjectMeaning(members: map<string, Meaning>)

  function MeaningOf(v: Value): Meaning
    decreases v, 1
  {
    match v
    case Null => NullMeaning
    case Bool(flag) => BoolMeaning(flag)
    case Number(token) => NumberMeaning(token)
    case String(text) => StringMeaning(text)
    case Array(items) => ArrayMeaning(ItemsMeaning(items))
    case Object(entries) => ObjectMeaning(EntriesMeaning(entries))
  }

  function ItemsMeaning(items: seq<Value>): seq<Meaning>
    decreases items, 0
  {
    if items == [] then [] else [MeaningOf(items[0])] + ItemsMeaning(items[1..])
  }

  function EntriesMeaning(es: seq<Entry>): map<string, Meaning>
    decreases es, 0
  {
    if es == [] then map[] else EntriesMeaning(es[1..])[es[0].key := MeaningOf(es[0].value)]
  }
}
