/** Two requests have the same canonical text exactly when they are the same JSON
    value, objects being unordered. */
module CanonicalTheorems {
  import opened Text
  import opened CanonicalJson
  import G = CppJsonGrammar
  import CppJsonComplete
  import CppJsonPrinter

  // ------------------------------------------------------ order and sorting

  predicate Sorted<T>(ps: seq<Pair<T>>) {
    |ps| < 2 || (Less(ps[0].key, ps[1].key) && Sorted(ps[1..]))
  }

  ghost predicate Has<T>(ps: seq<Pair<T>>, key: string) {
    exists i :: 0 <= i < |ps| && ps[i].key == key
  }

  lemma {:induction false} SortedHead<T>(ps: seq<Pair<T>>, key: string)
    requires Sorted(ps) && ps != [] && Has(ps[1..], key)
    ensures Less(ps[0].key, key)
    decreases |ps|
  {
    var i :| 0 <= i < |ps[1..]| && ps[1..][i].key == key;
    if i > 0 {
      assert ps[1..][1..][i - 1].key == key;
      SortedHead(ps[1..], key);
      LessTransitive(ps[0].key, ps[1].key, key);
    }
  }

  lemma {:induction false} InsertSorted<T>(p: Pair<T>, ps: seq<Pair<T>>)
    requires Sorted(ps) && !Has(ps, p.key)
    ensures Sorted(Insert(p, ps))
    ensures forall key :: Has(Insert(p, ps), key) <==> key == p.key || Has(ps, key)
    ensures Insert(p, ps) != [] && (Insert(p, ps)[0] == p || (ps != [] && Insert(p, ps)[0] == ps[0]))
    decreases |ps|
  {
    var out := Insert(p, ps);
    if ps == [] || Less(p.key, ps[0].key) {
      assert out[1..] == ps;
      forall key ensures Has(out, key) <==> key == p.key || Has(ps, key) { HasCons(p, ps, key); }
    } else {
      var rest := ps[1..];
      forall key ensures Has(ps, key) <==> key == ps[0].key || Has(rest, key) {
        assert ps == [ps[0]] + rest;
        HasCons(ps[0], rest, key);
      }
      InsertSorted(p, rest);
      assert out[1..] == Insert(p, rest);
      forall key ensures Has(out, key) <==> key == ps[0].key || Has(Insert(p, rest), key) {
        HasCons(ps[0], Insert(p, rest), key);
      }
      LessTotal(p.key, ps[0].key);
    }
  }

  lemma HasCons<T>(p: Pair<T>, ps: seq<Pair<T>>, key: string)
    ensures Has([p] + ps, key) <==> key == p.key || Has(ps, key)
  {
    var all := [p] + ps;
    if i :| 0 <= i < |ps| && ps[i].key == key { assert all[i + 1].key == key; }
    if i :| 0 <= i < |all| && all[i].key == key {
      if i > 0 { assert ps[i - 1].key == key; }
    }
    assert all[0] == p;
  }

  ghost predicate Distinct<T>(ps: seq<Pair<T>>) {
    ps == [] || (!Has(ps[1..], ps[0].key) && Distinct(ps[1..]))
  }

  lemma {:induction false} SortSorts<T>(ps: seq<Pair<T>>)
    requires Distinct(ps)
    ensures Sorted(Sort(ps))
    ensures forall key :: Has(Sort(ps), key) <==> Has(ps, key)
    decreases |ps|
  {
    if ps != [] {
      SortSorts(ps[1..]);
      InsertSorted(ps[0], Sort(ps[1..]));
      assert ps == [ps[0]] + ps[1..];
      forall key ensures Has(Sort(ps), key) <==> Has(ps, key) { HasCons(ps[0], ps[1..], key); }
    }
  }

  // --------------------------------- entries as pairs, rendered and meant

  function Paired(es: seq<Entry>): seq<Pair<Value>> {
    if es == [] then [] else [Pair(es[0].key, es[0].value)] + Paired(es[1..])
  }

  function RenderAll(ps: seq<Pair<Value>>): seq<Pair<string>> {
    if ps == [] then [] else [Pair(ps[0].key, Canonical(ps[0].item))] + RenderAll(ps[1..])
  }

  function MeaningAll(ps: seq<Pair<Value>>): map<string, Meaning> {
    if ps == [] then map[] else MeaningAll(ps[1..])[ps[0].key := MeaningOf(ps[0].item)]
  }

  predicate AllGood(ps: seq<Pair<Value>>) {
    ps == [] || (WellFormed(ps[0].item) && AllGood(ps[1..]))
  }

  lemma {:induction false} PairedFacts(es: seq<Entry>)
    requires EntriesWellFormed(es)
    ensures Rendered(es) == RenderAll(Paired(es)) && EntriesMeaning(es) == MeaningAll(Paired(es))
    ensures AllGood(Paired(es)) && Distinct(Paired(es)) && |Paired(es)| == |es|
    ensures forall i :: 0 <= i < |es| ==> Paired(es)[i].key == es[i].key
  {
    if es != [] {
      PairedFacts(es[1..]);
      var ps := Paired(es);
      assert ps[1..] == Paired(es[1..]);
      forall i | 0 <= i < |ps[1..]| ensures ps[1..][i].key != ps[0].key {
        assert ps[1..][i].key == es[1..][i].key;
      }
      forall i | 1 <= i < |ps| ensures ps[i].key == es[i].key {
        assert es[i] == es[1..][i - 1] && ps[i] == ps[1..][i - 1];
      }
    }
  }

  lemma {:induction false} InsertFacts(p: Pair<Value>, ps: seq<Pair<Value>>)
    requires AllGood(ps) && WellFormed(p.item)
    ensures RenderAll(Insert(p, ps)) == Insert(Pair(p.key, Canonical(p.item)), RenderAll(ps))
    ensures AllGood(Insert(p, ps))
    ensures !Has(ps, p.key) ==> MeaningAll(Insert(p, ps)) == MeaningAll(ps)[p.key := MeaningOf(p.item)]
    decreases |ps|
  {
    hide Canonical, MeaningOf, WellFormed, Less;
    var out := Insert(p, ps);
    if ps == [] || Less(p.key, ps[0].key) {
      assert out[1..] == ps;
    } else {
      InsertFacts(p, ps[1..]);
      assert out[1..] == Insert(p, ps[1..]);
      assert RenderAll(ps)[1..] == RenderAll(ps[1..]);
      if !Has(ps, p.key) {
        assert ps == [ps[0]] + ps[1..];
        HasCons(ps[0], ps[1..], p.key);
      }
    }
  }

  lemma {:induction false} SortFacts(ps: seq<Pair<Value>>)
    requires AllGood(ps) && Distinct(ps)
    ensures Sort(RenderAll(ps)) == RenderAll(Sort(ps))
    ensures AllGood(Sort(ps)) && MeaningAll(Sort(ps)) == MeaningAll(ps)
    decreases |ps|
  {
    hide Canonical, MeaningOf, WellFormed, Insert;
    if ps != [] {
      var rest := ps[1..];
      SortFacts(rest);
      SortSorts(rest);
      InsertFacts(ps[0], Sort(rest));
      assert RenderAll(ps)[1..] == RenderAll(rest);
    }
  }

  /** An object by its entries in key order. */
  function Ordered(es: seq<Entry>): seq<Pair<Value>> { Sort(Paired(es)) }

  lemma OrderedFacts(es: seq<Entry>)
    requires EntriesWellFormed(es)
    ensures Canonical(Object(es)) == "{" + Join(Members(RenderAll(Ordered(es)))) + "}"
    ensures MeaningOf(Object(es)) == ObjectMeaning(MeaningAll(Ordered(es)))
    ensures AllGood(Ordered(es)) && Sorted(Ordered(es))
  {
    PairedFacts(es);
    SortFacts(Paired(es));
    SortSorts(Paired(es));
  }

  // -------------------------------------------------------------- framing

  /** A text that cannot continue a number token. */
  predicate Stops(r: string) { r == "" || !IsNumberChar(r[0]) }

  function SpellingFor(c: char): (s: G.Spelling)
    ensures s.Valid() && s.Text() == EscapeChar(c) && s.Meaning() == [c]
  {
    if c == '\U{08}' then G.Short('b') else if c == '\U{0C}' then G.Short('f') else CppJsonPrinter.SpellingFor(c)
  }

  function CharsFor(s: string): seq<G.Spelling> {
    if s == "" then [] else [SpellingFor(s[0])] + CharsFor(s[1..])
  }

  lemma {:induction false} CharsForText(s: string)
    ensures G.ValidChars(CharsFor(s)) && G.CharsMeaning(CharsFor(s)) == s
    ensures G.CharsText(CharsFor(s)) == Escape(s) + "\""
  {
    if s != "" {
      CharsForText(s[1..]);
      assert CharsFor(s)[1..] == CharsFor(s[1..]);
    }
  }

  /** A quoted string ends where it says, and determines its content: the JSON
      string reader undoes the escaping. */
  lemma QuoteFrame(s: string, t: string, r1: string, r2: string)
    requires Quote(s) + r1 == Quote(t) + r2
    ensures s == t && r1 == r2
  {
    var all := Quote(s) + r1;
    CharsForText(s);
    CharsForText(t);
    QuoteAt(s, r1, all);
    QuoteAt(t, r2, all);
    CppJsonComplete.FrameChars(CharsFor(s), all, 1);
    CppJsonComplete.FrameChars(CharsFor(t), all, 1);
    assert |Quote(s)| == |Quote(t)|;
    assert r1 == all[|Quote(s)|..] && r2 == all[|Quote(t)|..];
  }

  lemma QuoteAt(s: string, r: string, all: string)
    requires all == Quote(s) + r && G.CharsText(CharsFor(s)) == Escape(s) + "\""
    ensures At(all, 1, G.CharsText(CharsFor(s))) && |Quote(s)| == 1 + |G.CharsText(CharsFor(s))|
  {
    hide CharsFor, G.CharsText, Escape;
    var body := G.CharsText(CharsFor(s));
    assert Quote(s) == "\"" + body;
    assert all[1..] == body + r;
  }

  lemma {:induction false} TokenFrame(a: string, b: string, r1: string, r2: string)
    requires AllNumberChars(a) && AllNumberChars(b) && Stops(r1) && Stops(r2) && a + r1 == b + r2
    ensures a == b && r1 == r2
    decreases |a|
  {
    assert a != "" ==> (a + r1)[0] == a[0];
    assert b != "" ==> (b + r2)[0] == b[0];
    assert "" + r1 == r1 && "" + r2 == r2;
    if a != "" && b != "" {
      assert (a + r1)[1..] == a[1..] + r1 && (b + r2)[1..] == b[1..] + r2;
      TokenFrame(a[1..], b[1..], r1, r2);
      assert a == [a[0]] + a[1..] && b == [b[0]] + b[1..];
    }
  }

  datatype Form = NullForm | TrueForm | FalseForm | NumberForm | StringForm | ArrayForm | ObjectForm

  function FormOf(c: char): Form {
    if c == 'n' then NullForm else if c == 't' then TrueForm else if c == 'f' then FalseForm
    else if c == '"' then StringForm else if c == '[' then ArrayForm else if c == '{' then ObjectForm else NumberForm
  }

  lemma Start(v: Value)
    requires WellFormed(v)
    ensures Canonical(v) != "" && Canonical(v)[0] != ']' && Canonical(v)[0] != '}' && Canonical(v)[0] != ','
    ensures FormOf(Canonical(v)[0]) == match v
      case Null => NullForm
      case Bool(flag) => if flag then TrueForm else FalseForm
      case Number(_) => NumberForm
      case String(_) => StringForm
      case Array(_) => ArrayForm
      case Object(_) => ObjectForm
  {
  }

  /** What follows the first of several comma-separated texts, up to `r`. */
  function Rest(texts: seq<string>, close: string, r: string): string
    requires texts != []
  {
    if |texts| == 1 then close + r else "," + (Join(texts[1..]) + close + r)
  }

  lemma JoinFirst(texts: seq<string>, close: string, r: string)
    requires texts != []
    ensures Join(texts) + close + r == texts[0] + Rest(texts, close, r)
    ensures |Join(texts)| >= |texts[0]|
    ensures |texts| > 1 ==> |Join(texts)| == |texts[0]| + 1 + |Join(texts[1..])|
  {
    if |texts| == 1 {
      assert texts[0] + close + r == texts[0] + (close + r);
    } else {
      var tail := Join(texts[1..]);
      assert texts[0] + "," + tail + close + r == texts[0] + ("," + (tail + close + r));
    }
  }

  lemma {:induction false} Frame(a: Value, b: Value, r1: string, r2: string)
    requires WellFormed(a) && WellFormed(b) && Stops(r1) && Stops(r2)
    requires Canonical(a) + r1 == Canonical(b) + r2
    ensures MeaningOf(a) == MeaningOf(b) && r1 == r2
    decreases |Canonical(a)|, 0
  {
    Start(a);
    Start(b);
    assert (Canonical(a) + r1)[0] == Canonical(a)[0] && (Canonical(b) + r2)[0] == Canonical(b)[0];
    match a
    case Number(token) => TokenFrame(token, b.token, r1, r2);
    case String(text) => QuoteFrame(text, b.text, r1, r2);
    case Array(items) => ArrayFrame(items, b.items, r1, r2);
    case Object(entries) => ObjectFrame(entries, b.entries, r1, r2);
    case _ =>
      assert Canonical(a) == Canonical(b);
      assert r1 == (Canonical(a) + r1)[|Canonical(a)|..] && r2 == (Canonical(b) + r2)[|Canonical(b)|..];
  }

  lemma {:induction false} ArrayFrame(xs: seq<Value>, ys: seq<Value>, r1: string, r2: string)
    requires AllWellFormed(xs) && AllWellFormed(ys)
    requires Canonical(Array(xs)) + r1 == Canonical(Array(ys)) + r2
    ensures ItemsMeaning(xs) == ItemsMeaning(ys) && r1 == r2
    decreases |Canonical(Array(xs))| - 1, 1
  {
    hide Texts, Join;
    Brackets("[", Join(Texts(xs)), "]", r1);
    Brackets("[", Join(Texts(ys)), "]", r2);
    ItemsFrame(xs, ys, r1, r2);
  }

  lemma Brackets(open: string, body: string, close: string, r: string)
    requires |open| == 1
    ensures (open + body + close + r)[1..] == body + close + r
  {
    assert open + body + close + r == open + (body + close + r);
  }

  lemma {:induction false} ItemsFrame(xs: seq<Value>, ys: seq<Value>, r1: string, r2: string)
    requires AllWellFormed(xs) && AllWellFormed(ys)
    requires Join(Texts(xs)) + "]" + r1 == Join(Texts(ys)) + "]" + r2
    ensures ItemsMeaning(xs) == ItemsMeaning(ys) && r1 == r2
    decreases |Join(Texts(xs))|, 1
  {
    hide Canonical, Join, MeaningOf, WellFormed;
    ItemsHead(xs, r1);
    ItemsHead(ys, r2);
    if xs != [] && ys != [] {
      var tx, ty := Texts(xs), Texts(ys);
      Frame(xs[0], ys[0], Rest(tx, "]", r1), Rest(ty, "]", r2));
      RestFrame(tx, ty, "]", r1, r2);
      if |xs| > 1 {
        ItemsFrame(xs[1..], ys[1..], r1, r2);
      } else {
        assert ItemsMeaning(xs) == [MeaningOf(xs[0])] && ItemsMeaning(ys) == [MeaningOf(ys[0])];
      }
    }
  }

  /** How the text of an element list begins. */
  lemma ItemsHead(xs: seq<Value>, r: string)
    requires AllWellFormed(xs)
    ensures |Texts(xs)| == |xs|
    ensures var all := Join(Texts(xs)) + "]" + r;
      if xs == [] then all[0] == ']' && all[1..] == r
      else
        && all[0] != ']' && Texts(xs)[0] == Canonical(xs[0]) && Texts(xs)[1..] == Texts(xs[1..])
        && all == Canonical(xs[0]) + Rest(Texts(xs), "]", r) && Stops(Rest(Texts(xs), "]", r))
        && |Canonical(xs[0])| <= |Join(Texts(xs))|
        && (|xs| > 1 ==> |Join(Texts(xs[1..]))| < |Join(Texts(xs))|)
  {
    TextsCount(xs);
    if xs == [] {
      assert Join(Texts(xs)) + "]" + r == "]" + r;
    } else {
      JoinFirst(Texts(xs), "]", r);
      Start(xs[0]);
      RestStops(Texts(xs), "]", r);
    }
  }

  lemma {:induction false} TextsCount(xs: seq<Value>)
    ensures |Texts(xs)| == |xs|
  {
    if xs != [] { TextsCount(xs[1..]); }
  }

  lemma RestStops(texts: seq<string>, close: string, r: string)
    requires texts != [] && |close| == 1 && !IsNumberChar(close[0])
    ensures Stops(Rest(texts, close, r)) && Rest(texts, close, r)[0] == if |texts| == 1 then close[0] else ','
  {
  }

  /** Equal remainders have equally many texts left, with equal tails. */
  lemma RestFrame(tx: seq<string>, ty: seq<string>, close: string, r1: string, r2: string)
    requires tx != [] && ty != [] && |close| == 1 && !IsNumberChar(close[0]) && close[0] != ','
    requires Rest(tx, close, r1) == Rest(ty, close, r2)
    ensures |tx| == 1 <==> |ty| == 1
    ensures |tx| == 1 ==> r1 == r2
    ensures |tx| > 1 ==> Join(tx[1..]) + close + r1 == Join(ty[1..]) + close + r2
  {
    RestStops(tx, close, r1);
    RestStops(ty, close, r2);
    if |tx| == 1 {
      assert (close + r1)[1..] == r1 && (close + r2)[1..] == r2;
    } else {
      assert Rest(tx, close, r1)[1..] == Join(tx[1..]) + close + r1;
      assert Rest(ty, close, r2)[1..] == Join(ty[1..]) + close + r2;
    }
  }

  lemma {:induction false} ObjectFrame(es: seq<Entry>, fs: seq<Entry>, r1: string, r2: string)
    requires EntriesWellFormed(es) && EntriesWellFormed(fs)
    requires Canonical(Object(es)) + r1 == Canonical(Object(fs)) + r2
    ensures MeaningOf(Object(es)) == MeaningOf(Object(fs)) && r1 == r2
    decreases |Canonical(Object(es))| - 1, 1
  {
    hide Members, Join, Ordered, MeaningAll, Canonical, MeaningOf;
    OrderedFacts(es);
    OrderedFacts(fs);
    Brackets("{", Join(Members(RenderAll(Ordered(es)))), "}", r1);
    Brackets("{", Join(Members(RenderAll(Ordered(fs)))), "}", r2);
    MembersFrame(Ordered(es), Ordered(fs), r1, r2);
  }

  lemma {:induction false} MembersFrame(ps: seq<Pair<Value>>, qs: seq<Pair<Value>>, r1: string, r2: string)
    requires AllGood(ps) && AllGood(qs)
    requires Join(Members(RenderAll(ps))) + "}" + r1 == Join(Members(RenderAll(qs))) + "}" + r2
    ensures MeaningAll(ps) == MeaningAll(qs) && r1 == r2
    decreases |Join(Members(RenderAll(ps)))|, 1
  {
    hide Canonical, Join, MeaningOf, WellFormed, Quote, RenderAll, Members;
    MembersHead(ps, r1);
    MembersHead(qs, r2);
    if ps != [] && qs != [] {
      var tx, ty := Members(RenderAll(ps)), Members(RenderAll(qs));
      var s1, s2 := Rest(tx, "}", r1), Rest(ty, "}", r2);
      QuoteFrame(ps[0].key, qs[0].key, ":" + (Canonical(ps[0].item) + s1), ":" + (Canonical(qs[0].item) + s2));
      assert (":" + (Canonical(ps[0].item) + s1))[1..] == Canonical(ps[0].item) + s1;
      assert (":" + (Canonical(qs[0].item) + s2))[1..] == Canonical(qs[0].item) + s2;
      Frame(ps[0].item, qs[0].item, s1, s2);
      RestFrame(tx, ty, "}", r1, r2);
      if |ps| > 1 {
        MembersFrame(ps[1..], qs[1..], r1, r2);
      }
    }
  }

  /** How the text of a member list begins. */
  lemma MembersHead(ps: seq<Pair<Value>>, r: string)
    requires AllGood(ps)
    ensures |Members(RenderAll(ps))| == |ps|
    ensures var texts := Members(RenderAll(ps));
      var all := Join(texts) + "}" + r;
      if ps == [] then all[0] == '}' && all[1..] == r
      else
        && all[0] != '}' && texts[1..] == Members(RenderAll(ps[1..]))
        && all == Quote(ps[0].key) + (":" + (Canonical(ps[0].item) + Rest(texts, "}", r))) && Stops(Rest(texts, "}", r))
        && |Canonical(ps[0].item)| <= |Join(texts)|
        && (|ps| > 1 ==> |Join(Members(RenderAll(ps[1..])))| < |Join(texts)|)
  {
    hide Canonical, WellFormed, Escape, RenderAll, Members;
    MembersCount(ps);
    var texts := Members(RenderAll(ps));
    if ps == [] {
      assert Join(texts) + "}" + r == "}" + r;
    } else {
      var q, c, rest := Quote(ps[0].key), Canonical(ps[0].item), Rest(texts, "}", r);
      MembersFirst(ps);
      JoinFirst(texts, "}", r);
      RestStops(texts, "}", r);
      assert q + ":" + c + rest == q + (":" + (c + rest));
      assert (q + (":" + (c + rest)))[0] == q[0] == '"';
    }
  }

  lemma MembersFirst(ps: seq<Pair<Value>>)
    requires ps != []
    ensures var texts := Members(RenderAll(ps));
      texts != [] && texts[0] == Quote(ps[0].key) + ":" + Canonical(ps[0].item) && texts[1..] == Members(RenderAll(ps[1..]))
  {
    hide Canonical, Quote;
    assert RenderAll(ps)[1..] == RenderAll(ps[1..]);
  }

  lemma {:induction false} MembersCount(ps: seq<Pair<Value>>)
    ensures |RenderAll(ps)| == |ps| && |Members(RenderAll(ps))| == |ps|
  {
    if ps != [] {
      MembersCount(ps[1..]);
      assert RenderAll(ps)[1..] == RenderAll(ps[1..]);
    }
  }

  // ------------------------------------------ the same meaning, the same text

  lemma {:induction false} SameText(a: Value, b: Value)
    requires WellFormed(a) && WellFormed(b) && MeaningOf(a) == MeaningOf(b)
    ensures Canonical(a) == Canonical(b)
    decreases |Canonical(a)|, 0
  {
    match a
    case Array(items) => SameTexts(items, b.items);
    case Object(entries) =>
      OrderedFacts(entries);
      OrderedFacts(b.entries);
      SameMembers(Ordered(entries), Ordered(b.entries));
    case _ =>
  }

  lemma {:induction false} SameTexts(xs: seq<Value>, ys: seq<Value>)
    requires AllWellFormed(xs) && AllWellFormed(ys) && ItemsMeaning(xs) == ItemsMeaning(ys)
    ensures Texts(xs) == Texts(ys)
    decreases |Join(Texts(xs))|, 1, |xs|
  {
    hide Canonical, Join, MeaningOf, WellFormed;
    if xs != [] && ys != [] {
      ItemsHead(xs, "");
      assert ItemsMeaning(xs)[0] == MeaningOf(xs[0]) && ItemsMeaning(ys)[0] == MeaningOf(ys[0]);
      assert ItemsMeaning(xs)[1..] == ItemsMeaning(xs[1..]) && ItemsMeaning(ys)[1..] == ItemsMeaning(ys[1..]);
      SameText(xs[0], ys[0]);
      if |xs| > 1 {
        SameTexts(xs[1..], ys[1..]);
      } else {
        assert ItemsMeaning(ys[1..]) == [];
      }
    }
  }

  lemma {:induction false} MeaningKeys(ps: seq<Pair<Value>>, key: string)
    ensures key in MeaningAll(ps) <==> Has(ps, key)
    decreases |ps|
  {
    if ps != [] {
      MeaningKeys(ps[1..], key);
      assert ps == [ps[0]] + ps[1..];
      HasCons(ps[0], ps[1..], key);
    }
  }

  /** Sorted lists with the same entries start with the same key. */
  lemma SameHead(ps: seq<Pair<Value>>, qs: seq<Pair<Value>>)
    requires Sorted(ps) && Sorted(qs) && ps != [] && qs != [] && MeaningAll(ps) == MeaningAll(qs)
    ensures ps[0].key == qs[0].key
  {
    hide Less, Sorted, MeaningAll;
    var p, q := ps[0].key, qs[0].key;
    assert ps == [ps[0]] + ps[1..] && qs == [qs[0]] + qs[1..];
    HasCons(ps[0], ps[1..], p);
    HasCons(qs[0], qs[1..], q);
    MeaningKeys(ps, p);
    MeaningKeys(qs, p);
    MeaningKeys(ps, q);
    MeaningKeys(qs, q);
    HasCons(ps[0], ps[1..], q);
    HasCons(qs[0], qs[1..], p);
    if p != q {
      SortedHead(ps, q);
      SortedHead(qs, p);
      LessTransitive(p, q, p);
      LessIrreflexive(p);
    }
  }

  lemma TailMeaning(ps: seq<Pair<Value>>)
    requires Sorted(ps) && ps != []
    ensures MeaningAll(ps[1..]) == MeaningAll(ps) - {ps[0].key}
  {
    var key := ps[0].key;
    MeaningKeys(ps[1..], key);
    if Has(ps[1..], key) {
      SortedHead(ps, key);
      LessIrreflexive(key);
    }
  }

  lemma {:induction false} SameMembers(ps: seq<Pair<Value>>, qs: seq<Pair<Value>>)
    requires AllGood(ps) && AllGood(qs) && Sorted(ps) && Sorted(qs) && MeaningAll(ps) == MeaningAll(qs)
    ensures RenderAll(ps) == RenderAll(qs)
    decreases |Join(Members(RenderAll(ps)))|, 1, |ps|
  {
    hide Canonical, Join, MeaningOf, WellFormed, Quote, Members, Less;
    assert qs != [] ==> qs[0].key in MeaningAll(qs);
    assert ps != [] ==> ps[0].key in MeaningAll(ps);
    if ps != [] && qs != [] {
      SameHead(ps, qs);
      TailMeaning(ps);
      TailMeaning(qs);
      MembersHead(ps, "");
      assert MeaningAll(ps)[ps[0].key] == MeaningOf(ps[0].item);
      assert MeaningAll(qs)[qs[0].key] == MeaningOf(qs[0].item);
      SameText(ps[0].item, qs[0].item);
      assert |qs| > 1 ==> qs[1..][0].key in MeaningAll(qs[1..]);
      if |ps| > 1 {
        SameMembers(ps[1..], qs[1..]);
      } else {
        assert MeaningAll(ps[1..]) == map[];
      }
    }
  }

  /** Canonical text is the value, objects unordered: no more and no less. */
  lemma CanonicalExactly(a: Value, b: Value)
    requires WellFormed(a) && WellFormed(b)
    ensures Canonical(a) == Canonical(b) <==> MeaningOf(a) == MeaningOf(b)
  {
    if MeaningOf(a) == MeaningOf(b) { SameText(a, b); }
    if Canonical(a) == Canonical(b) {
      assert Canonical(a) + "" == Canonical(b) + "";
      Frame(a, b, "", "");
    }
  }

  // ---------------------------------------------------------- fingerprints

  predicate NoBreak(s: string) { Lacks(s, '\n') }

  lemma {:induction false} EscapeNoBreak(s: string)
    ensures NoBreak(Escape(s))
  {
    if s != "" {
      EscapeNoBreak(s[1..]);
      assert NoBreak(EscapeChar(s[0]));
    }
  }

  lemma {:induction false} TokenNoBreak(s: string)
    requires AllNumberChars(s)
    ensures NoBreak(s)
  {
    if s != "" {
      TokenNoBreak(s[1..]);
      assert s == [s[0]] + s[1..];
    }
  }

  lemma {:induction false} CanonicalNoBreak(v: Value)
    requires WellFormed(v)
    ensures NoBreak(Canonical(v))
    decreases |Canonical(v)|, 0
  {
    match v
    case Number(token) => TokenNoBreak(token);
    case String(text) => EscapeNoBreak(text);
    case Array(items) => ItemsNoBreak(items);
    case Object(entries) =>
      OrderedFacts(entries);
      MembersNoBreak(Ordered(entries));
    case _ =>
  }

  lemma {:induction false} ItemsNoBreak(xs: seq<Value>)
    requires AllWellFormed(xs)
    ensures NoBreak(Join(Texts(xs)))
    decreases |Join(Texts(xs))|, 1, |xs|
  {
    hide Canonical, WellFormed;
    if xs != [] {
      ItemsHead(xs, "");
      CanonicalNoBreak(xs[0]);
      if |xs| > 1 { ItemsNoBreak(xs[1..]); }
    }
  }

  lemma {:induction false} MembersNoBreak(ps: seq<Pair<Value>>)
    requires AllGood(ps)
    ensures NoBreak(Join(Members(RenderAll(ps))))
    decreases |Join(Members(RenderAll(ps)))|, 1, |ps|
  {
    hide Canonical, WellFormed, Escape;
    if ps != [] {
      MembersHead(ps, "");
      CanonicalNoBreak(ps[0].item);
      EscapeNoBreak(ps[0].key);
      var first := Quote(ps[0].key) + ":" + Canonical(ps[0].item);
      assert RenderAll(ps)[1..] == RenderAll(ps[1..]);
      assert Members(RenderAll(ps))[0] == first && NoBreak(first);
      if |ps| > 1 { MembersNoBreak(ps[1..]); }
    }
  }

  /** The bytes that are hashed. */
  function Preimage(key: string, request: Value): string {
    key + "\n" + Canonical(request)
  }

  /** The hashed bytes determine the key and the request, even for keys that
      contain line breaks: the last line break is the separator. */
  lemma PreimageDetermines(key1: string, request1: Value, key2: string, request2: Value)
    requires WellFormed(request1) && WellFormed(request2)
    ensures Preimage(key1, request1) == Preimage(key2, request2) <==>
      key1 == key2 && MeaningOf(request1) == MeaningOf(request2)
  {
    var c1, c2 := Canonical(request1), Canonical(request2);
    CanonicalExactly(request1, request2);
    if Preimage(key1, request1) == Preimage(key2, request2) {
      CanonicalNoBreak(request1);
      CanonicalNoBreak(request2);
      SplitAtLast(key1, c1, key2, c2, '\n');
    }
  }

  /** A hasher that has been fed `fed`. */
  class Hasher {
    var fed: string

    constructor ()
      ensures fed == ""
    {
      fed := "";
    }

    method Update(bytes: string)
      modifies this
      ensures fed == old(fed) + bytes
    {
      fed := fed + bytes;
    }
  }

  /** `request_fingerprint` for a hash function that is only assumed to be one. */
  method RequestFingerprint(hash: string -> string, request: Value, idempotencyKey: string) returns (digest: string)
    ensures digest == hash(Preimage(idempotencyKey, request))
  {
    var hasher := new Hasher();
    hasher.Update(idempotencyKey);
    hasher.Update("\n");
    hasher.Update(Canonical(request));
    assert "" + idempotencyKey == idempotencyKey;
    digest := hash(hasher.fed);
  }

  /** Two different texts with one digest. */
  ghost predicate Collides(hash: string -> string, p: string, q: string) {
    p != q && hash(p) == hash(q)
  }

  /** Unless the hash collides on the very texts that are hashed, equal fingerprints
      are the same key with the same request. */
  lemma FingerprintIsRequest(hash: string -> string, key1: string, request1: Value, key2: string, request2: Value)
    requires WellFormed(request1) && WellFormed(request2)
    requires !Collides(hash, Preimage(key1, request1), Preimage(key2, request2))
    ensures hash(Preimage(key1, request1)) == hash(Preimage(key2, request2)) <==>
      key1 == key2 && MeaningOf(request1) == MeaningOf(request2)
  {
    PreimageDetermines(key1, request1, key2, request2);
  }
}
