/** The canonical text is JSON: a reader of JSON gets the value back from it, with the
    members of every object in the order of their keys. */
module CanonicalReads {
  import opened Text
  import opened CanonicalJson
  import opened CanonicalTheorems
  import C = CppJson
  import G = CppJsonGrammar
  import CppJsonComplete

  // -------------------------------------------------------- what is read

  ghost predicate Spells(n: G.NumToken, token: string) { n.Valid() && n.Text() == token }

  /** Every number is a token of the grammar that a reader can convert. */
  ghost predicate Standard(stod: C.Stod, v: Value)
    decreases v, 1
  {
    match v
    case Number(token) => exists n :: Spells(n, token) && n.Fits(stod)
    case Array(items) => AllStandard(stod, items)
    case Object(es) => EntriesStandard(stod, es)
    case _ => true
  }

  ghost predicate AllStandard(stod: C.Stod, items: seq<Value>)
    decreases items, 0
  {
    forall i :: 0 <= i < |items| ==> Standard(stod, items[i])
  }

  ghost predicate EntriesStandard(stod: C.Stod, es: seq<Entry>)
    decreases es, 0
  {
    forall i :: 0 <= i < |es| ==> Standard(stod, es[i].value)
  }

  predicate KeysIncrease(members: seq<C.Member>) {
    forall i, j :: 0 <= i < j < |members| ==> Less(members[i].key, members[j].key)
  }

  /** `j` is the value `v`, with the members of objects in the order of their keys. */
  ghost predicate Says(v: Value, j: C.Json)
    decreases v
  {
    match v
    case Null => j == C.Nul
    case Bool(flag) => j == C.Boolean(flag)
    case Number(token) => exists n :: Spells(n, token) && j == G.Meaning(G.NumberText(n))
    case String(text) => j == C.String(text)
    case Array(items) =>
      j.Array? && |j.items| == |items| && forall i :: 0 <= i < |items| ==> Says(items[i], j.items[i])
    case Object(es) =>
      j.Object? && |j.members| == |es| && KeysIncrease(j.members) &&
      forall i :: 0 <= i < |es| ==> exists k :: 0 <= k < |es| && j.members[k].key == es[i].key && Says(es[i].value, j.members[k].value)
  }

  // ------------------------------------------------------- the syntax tree

  ghost function TokenFor(stod: C.Stod, token: string): (n: G.NumToken)
    requires exists n :: Spells(n, token) && n.Fits(stod)
    ensures Spells(n, token) && n.Fits(stod)
  {
    var n :| Spells(n, token) && n.Fits(stod);
    n
  }

  ghost function SyntaxFor(stod: C.Stod, v: Value): G.Syntax
    requires Standard(stod, v)
    decreases v, 1
  {
    match v
    case Null => G.NulText
    case Bool(flag) => G.BoolText(flag)
    case Number(token) => G.NumberText(TokenFor(stod, token))
    case String(text) => G.StringText(CharsFor(text))
    case Array(items) => G.ArrayText("", ItemsFor(stod, items))
    case Object(es) => G.ObjectText("", MembersFor(Sort(Spelled(stod, es))))
  }

  ghost function ItemsFor(stod: C.Stod, items: seq<Value>): (out: seq<G.ItemText>)
    requires AllStandard(stod, items)
    ensures |out| == |items|
    decreases items, 0
  {
    if items == [] then [] else [G.ItemText("", SyntaxFor(stod, items[0]), "")] + ItemsFor(stod, items[1..])
  }

  ghost function Spelled(stod: C.Stod, es: seq<Entry>): (out: seq<Pair<G.Syntax>>)
    requires EntriesStandard(stod, es)
    ensures |out| == |es|
    decreases es, 0
  {
    if es == [] then [] else [Pair(es[0].key, SyntaxFor(stod, es[0].value))] + Spelled(stod, es[1..])
  }

  function MembersFor(ps: seq<Pair<G.Syntax>>): (out: seq<G.MemberText>)
    ensures |out| == |ps|
  {
    if ps == [] then [] else [G.MemberText("", CharsFor(ps[0].key), "", "", ps[0].item, "")] + MembersFor(ps[1..])
  }

  function TextPairs(ps: seq<Pair<G.Syntax>>): (out: seq<Pair<string>>)
    ensures |out| == |ps|
  {
    if ps == [] then [] else [Pair(ps[0].key, G.TextOf(ps[0].item))] + TextPairs(ps[1..])
  }

  /** Everything the syntax of a value needs to be. */
  ghost predicate Stands(stod: C.Stod, v: Value, c: G.Syntax) {
    G.Valid(c) && G.Fits(stod, c) && G.TextOf(c) == Canonical(v) && Says(v, G.Meaning(c))
  }

  // ----------------------------------------------------------- sorting

  lemma {:induction false} InsertTexts(p: Pair<G.Syntax>, ps: seq<Pair<G.Syntax>>)
    ensures TextPairs(Insert(p, ps)) == Insert(Pair(p.key, G.TextOf(p.item)), TextPairs(ps))
    ensures forall q :: q in Insert(p, ps) <==> q == p || q in ps
    ensures |Insert(p, ps)| == |ps| + 1
  {
    hide G.TextOf, Less;
    var out := Insert(p, ps);
    if ps == [] || Less(p.key, ps[0].key) {
      assert out[1..] == ps;
    } else {
      InsertTexts(p, ps[1..]);
      assert out[1..] == Insert(p, ps[1..]);
      assert ps == [ps[0]] + ps[1..];
      assert TextPairs(ps)[1..] == TextPairs(ps[1..]);
    }
  }

  lemma {:induction false} SortTexts(ps: seq<Pair<G.Syntax>>)
    ensures TextPairs(Sort(ps)) == Sort(TextPairs(ps)) && |Sort(ps)| == |ps|
    ensures forall q :: q in Sort(ps) <==> q in ps
  {
    hide G.TextOf, Insert;
    if ps != [] {
      SortTexts(ps[1..]);
      InsertTexts(ps[0], Sort(ps[1..]));
      assert ps == [ps[0]] + ps[1..];
      assert TextPairs(ps)[1..] == TextPairs(ps[1..]);
    }
  }

  lemma {:induction false} SortedIncreases<T>(ps: seq<Pair<T>>, i: nat, j: nat)
    requires Sorted(ps) && i < j < |ps|
    ensures Less(ps[i].key, ps[j].key)
  {
    if i == 0 {
      assert ps[1..][j - 1].key == ps[j].key;
      SortedHead(ps, ps[j].key);
    } else {
      SortedIncreases(ps[1..], i - 1, j - 1);
    }
  }

  // ------------------------------------------------------------- members

  ghost predicate AllStand(stod: C.Stod, ps: seq<Pair<G.Syntax>>) {
    forall i :: 0 <= i < |ps| ==> G.Valid(ps[i].item) && G.Fits(stod, ps[i].item)
  }

  lemma {:induction false} MembersStand(stod: C.Stod, ps: seq<Pair<G.Syntax>>)
    requires AllStand(stod, ps)
    ensures G.ValidMembers(MembersFor(ps)) && G.MembersFit(stod, MembersFor(ps))
    ensures |G.MembersMeaning(MembersFor(ps))| == |ps|
    ensures forall k :: 0 <= k < |ps| ==> G.MembersMeaning(MembersFor(ps))[k] == C.Member(ps[k].key, G.Meaning(ps[k].item))
  {
    hide G.Valid, G.Fits, G.TextOf, G.Meaning, CharsFor, G.CharsText, G.CharsMeaning, G.ValidChars, Escape;
    if ps != [] {
      MembersStand(stod, ps[1..]);
      assert MembersFor(ps)[1..] == MembersFor(ps[1..]);
      CharsForText(ps[0].key);
    }
  }

  lemma {:induction false} MembersTexts(ps: seq<Pair<G.Syntax>>)
    requires ps != []
    ensures G.MembersText(MembersFor(ps)) == Join(CanonicalJson.Members(TextPairs(ps))) + "}"
  {
    hide G.TextOf, CharsFor, G.CharsText, Escape, G.KeyText, Quote, Join, G.MembersText, CanonicalJson.Members, MembersFor;
    var first := Quote(ps[0].key) + ":" + G.TextOf(ps[0].item);
    MembersUnfold(ps);
    JoinUnfold(TextPairs(ps));
    assert TextPairs(ps)[1..] == TextPairs(ps[1..]);
    if |ps| > 1 {
      MembersTexts(ps[1..]);
      CommaFirst(first, Join(CanonicalJson.Members(TextPairs(ps[1..]))));
    } else {
      assert first + "" == first;
    }
  }

  lemma CommaFirst(first: string, rest: string)
    ensures first + ("," + (rest + "}")) == (first + ("," + rest)) + "}"
  {
  }

  lemma MembersUnfold(ps: seq<Pair<G.Syntax>>)
    requires ps != []
    ensures G.MembersText(MembersFor(ps)) ==
      Quote(ps[0].key) + ":" + G.TextOf(ps[0].item) + if |ps| == 1 then "}" else "," + G.MembersText(MembersFor(ps[1..]))
  {
    hide G.TextOf, CharsFor, G.CharsText, G.KeyText, Quote, Escape;
    var ms := MembersFor(ps);
    assert ms[1..] == MembersFor(ps[1..]);
    CharsForText(ps[0].key);
    MemberText(ps[0].key, G.TextOf(ps[0].item), ms[0]);
    Regroup(G.KeyText(ms[0]), ms[0].gap + G.TextOf(ms[0].value) + ms[0].after,
            if |ps| == 1 then "}" else "," + G.MembersText(ms[1..]));
  }

  lemma Regroup(a: string, b: string, c: string)
    ensures a + (b + c) == a + b + c
  {
  }

  lemma JoinUnfold(ps: seq<Pair<string>>)
    requires ps != []
    ensures Join(CanonicalJson.Members(ps)) ==
      Quote(ps[0].key) + ":" + ps[0].item + if |ps| == 1 then "" else "," + Join(CanonicalJson.Members(ps[1..]))
  {
    hide Quote;
    MembersLength(ps[1..]);
    assert CanonicalJson.Members(ps)[1..] == CanonicalJson.Members(ps[1..]);
  }

  lemma {:induction false} MembersLength(ps: seq<Pair<string>>)
    ensures |CanonicalJson.Members(ps)| == |ps|
  {
    if ps != [] { MembersLength(ps[1..]); }
  }

  lemma MemberText(key: string, text: string, m: G.MemberText)
    requires m.before == "" && m.colon == "" && m.gap == "" && m.after == "" && G.TextOf(m.value) == text
    requires G.CharsText(m.key) == Escape(key) + "\""
    ensures G.KeyText(m) + (m.gap + G.TextOf(m.value) + m.after) == Quote(key) + ":" + text
  {
    hide G.TextOf, G.CharsText, Escape;
    assert G.KeyText(m) == Quote(key) + ":";
  }

  // ---------------------------------------------------------------- values

  lemma {:induction false} SyntaxStands(stod: C.Stod, v: Value)
    requires WellFormed(v) && Standard(stod, v)
    ensures Stands(stod, v, SyntaxFor(stod, v))
    decreases v, 1
  {
    match v
    case Null =>
    case Bool(flag) =>
    case Number(token) => var n := TokenFor(stod, token);
    case String(text) => CharsForText(text);
    case Array(items) => ArrayStands(stod, items);
    case Object(es) => ObjectStands(stod, es);
  }

  lemma {:induction false} ArrayStands(stod: C.Stod, items: seq<Value>)
    requires AllWellFormed(items) && AllStandard(stod, items)
    ensures Stands(stod, Array(items), SyntaxFor(stod, Array(items)))
    decreases items, 1
  {
    hide G.ItemsText, Join, Texts, ItemsFor;
    ItemsStand(stod, items);
    NoItems(stod);
    if items == [] { assert "[" + "" + "]" == "[]"; }
  }

  lemma NoItems(stod: C.Stod)
    ensures Join(Texts([])) == "" && ItemsFor(stod, []) == []
  {
  }

  lemma {:induction false} ItemsStand(stod: C.Stod, items: seq<Value>)
    requires AllWellFormed(items) && AllStandard(stod, items)
    ensures var cs := ItemsFor(stod, items);
      && G.ValidItems(cs) && G.ItemsFit(stod, cs) && |G.ItemsMeaning(cs)| == |items|
      && (forall k :: 0 <= k < |items| ==> Says(items[k], G.ItemsMeaning(cs)[k]))
      && (items != [] ==> G.ItemsText(cs) == Join(Texts(items)) + "]")
    decreases items, 0
  {
    hide G.Valid, G.Fits, G.TextOf, G.Meaning, SyntaxFor, Says, Canonical, WellFormed, Standard;
    if items != [] {
      var rest := items[1..];
      SyntaxStands(stod, items[0]);
      ItemsStand(stod, rest);
      assert ItemsFor(stod, items)[1..] == ItemsFor(stod, rest) && Texts(items)[1..] == Texts(rest);
      TextsLength(rest);
      ItemFirst(Canonical(items[0]), Join(Texts(rest)));
    }
  }

  lemma {:induction false} TextsLength(items: seq<Value>)
    ensures |Texts(items)| == |items|
  {
    if items != [] { TextsLength(items[1..]); }
  }

  lemma ItemFirst(first: string, rest: string)
    ensures "" + first + "" == first
    ensures first + ("," + (rest + "]")) == first + "," + rest + "]"
  {
  }

  lemma {:induction false} ObjectStands(stod: C.Stod, es: seq<Entry>)
    requires EntriesWellFormed(es) && EntriesStandard(stod, es)
    ensures Stands(stod, Object(es), SyntaxFor(stod, Object(es)))
    decreases es, 1
  {
    hide G.MembersText, Join, CanonicalJson.Members, Spelled, MembersFor, G.Valid, G.Fits, G.TextOf, G.Meaning, Sort, Sorted, Rendered, TextPairs, Says, Canonical, G.MembersMeaning;
    var ps := Spelled(stod, es);
    EntriesStand(stod, es);
    SortTexts(ps);
    ObjectUnfolds(stod, es);
    assert AllStand(stod, Sort(ps)) by { forall i | 0 <= i < |Sort(ps)| ensures Sort(ps)[i] in ps {} }
    MembersStand(stod, Sort(ps));
    ObjectText(Sort(ps));
    ObjectSays(stod, es);
  }

  lemma ObjectUnfolds(stod: C.Stod, es: seq<Entry>)
    requires EntriesStandard(stod, es)
    ensures SyntaxFor(stod, Object(es)) == G.ObjectText("", MembersFor(Sort(Spelled(stod, es))))
    ensures Canonical(Object(es)) == "{" + Join(CanonicalJson.Members(Sort(Rendered(es)))) + "}"
    ensures forall ms :: G.ValidMembers(ms) ==>
      G.Valid(G.ObjectText("", ms)) && G.Meaning(G.ObjectText("", ms)) == C.Object(G.MembersMeaning(ms))
    ensures forall ms :: G.MembersFit(stod, ms) ==> G.Fits(stod, G.ObjectText("", ms))
  {
  }

  lemma ObjectText(ps: seq<Pair<G.Syntax>>)
    ensures G.TextOf(G.ObjectText("", MembersFor(ps))) == "{" + Join(CanonicalJson.Members(TextPairs(ps))) + "}"
  {
    hide G.MembersText, Join, CanonicalJson.Members, TextPairs;
    if ps == [] {
      NoMembers();
      assert "" + "}" == "}" && "{" + "" + "}" == "{" + "}";
    } else {
      MembersTexts(ps);
      assert "{" + (Join(CanonicalJson.Members(TextPairs(ps))) + "}") == "{" + Join(CanonicalJson.Members(TextPairs(ps))) + "}";
    }
  }

  lemma NoMembers()
    ensures Join(CanonicalJson.Members(TextPairs([]))) == ""
  {
  }

  lemma {:induction false} EntriesStand(stod: C.Stod, es: seq<Entry>)
    requires EntriesWellFormed(es) && EntriesStandard(stod, es)
    ensures TextPairs(Spelled(stod, es)) == Rendered(es) && AllStand(stod, Spelled(stod, es)) && Distinct(Spelled(stod, es))
    ensures forall i :: 0 <= i < |es| ==> Spelled(stod, es)[i].key == es[i].key && G.Valid(Spelled(stod, es)[i].item)
    ensures forall i :: 0 <= i < |es| ==> Says(es[i].value, G.Meaning(Spelled(stod, es)[i].item))
    decreases es, 0
  {
    hide G.Valid, G.Fits, G.TextOf, G.Meaning, SyntaxFor, Says, Canonical, WellFormed, Standard;
    if es != [] {
      var rest, ps := es[1..], Spelled(stod, es);
      SyntaxStands(stod, es[0].value);
      EntriesStand(stod, rest);
      assert ps[1..] == Spelled(stod, rest);
      forall i | 1 <= i < |es| ensures ps[i] == Spelled(stod, rest)[i - 1] && es[i] == rest[i - 1] {}
      forall i | 0 <= i < |ps[1..]| ensures ps[1..][i].key != ps[0].key { assert rest[i].key != es[0].key; }
    }
  }

  /** The members of an object: one for each entry, in the order of the keys. */
  lemma {:induction false} ObjectSays(stod: C.Stod, es: seq<Entry>)
    requires EntriesStandard(stod, es)
    requires var ps := Spelled(stod, es); AllStand(stod, ps) && Distinct(ps)
    requires forall i :: 0 <= i < |es| ==> Spelled(stod, es)[i].key == es[i].key
    requires forall i :: 0 <= i < |es| ==> G.Valid(Spelled(stod, es)[i].item) && Says(es[i].value, G.Meaning(Spelled(stod, es)[i].item))
    requires AllStand(stod, Sort(Spelled(stod, es)))
    ensures G.ValidMembers(MembersFor(Sort(Spelled(stod, es))))
    ensures Says(Object(es), C.Object(G.MembersMeaning(MembersFor(Sort(Spelled(stod, es))))))
  {
    hide G.Valid, G.Fits, G.Meaning, Spelled, MembersFor, Sort, Sorted, G.MembersMeaning, Less;
    var ps := Spelled(stod, es);
    var sorted := Sort(ps);
    SortTexts(ps);
    SortSorts(ps);
    MembersStand(stod, sorted);
    var members := G.MembersMeaning(MembersFor(sorted));
    forall i, j | 0 <= i < j < |members| ensures Less(members[i].key, members[j].key) { SortedIncreases(sorted, i, j); }
    forall i | 0 <= i < |es|
      ensures exists k :: 0 <= k < |es| && members[k].key == es[i].key && Says(es[i].value, members[k].value)
    {
      assert ps[i] in sorted;
      var k :| 0 <= k < |sorted| && sorted[k] == ps[i];
      assert members[k] == C.Member(ps[i].key, G.Meaning(ps[i].item));
    }
  }

  /** The canonical text of a value reads as that value, the members of every object
      standing in the order of their keys. */
  lemma CanonicalParses(stod: C.Stod, v: Value) returns (j: C.Json)
    requires WellFormed(v) && Standard(stod, v)
    ensures C.ParseJson(stod, Canonical(v)) == C.Success(j) && Says(v, j)
  {
    hide C.ParseJson, Canonical, SyntaxFor, Says, WellFormed, Standard, G.Valid, G.Fits, G.TextOf, G.Meaning;
    SyntaxStands(stod, v);
    var c := SyntaxFor(stod, v);
    j := G.Meaning(c);
    assert "" + G.TextOf(c) + "" == G.TextOf(c);
    CppJsonComplete.DocumentParses(stod, "", c, "");
  }
}
