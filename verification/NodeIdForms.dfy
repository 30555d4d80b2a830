/** What becomes of each form an id can have, said of the text of the id. */
module NodeIdForms {
  import opened LinkTests
  import opened NodeIds
  import opened Wrappers

  /** The types a node can have; an id may also begin with the old name `func`. */
  predicate NodeType(p: string) {
    p in ["article", "claim", "class", "concept", "config", "document", "domain", "endpoint", "entity", "file", "flow",
          "function", "module", "pipeline", "resource", "schema", "service", "source", "step", "table", "topic"]
  }

  predicate Known(p: string) { NodeType(p) || p == "func" }

  /** The type an id that begins with `p` speaks of. */
  function TypeFor(p: string): string { if p == "func" then "function" else p }

  lemma KnownExactly(p: string)
    ensures Known(p) <==> p in PREFIXES
  {
  }

  lemma KnownWord(p: string)
    requires Known(p)
    ensures NoColon(p) && p != ""
    ensures p in PREFIXES
  {
    hide PREFIXES;
    KnownExactly(p);
    PrefixesHaveNoColon();
  }

  /** A prefix that is known stays, in its present name. */
  lemma PrefixedStays(p: string, rest: string, n: Node)
    requires Known(p) && !(p + ":" <= rest)
    ensures Normalize(p + ":" + rest, n) == TypeFor(p) + ":" + rest
  {
    hide PREFIXES, NodeType;
    KnownWord(p);
    SegmentBefore(p, rest);
    var id := p + ":" + rest;
    assert id[|p| + 1..] == rest;
    assert StripDouble(id) == id && StripProject(id) == id;
    Renames(p, rest);
  }

  lemma Renames(p: string, rest: string)
    requires Known(p)
    ensures Canonicalize(p + ":" + rest) == TypeFor(p) + ":" + rest
    ensures HasPrefix(TypeFor(p) + ":" + rest)
  {
    hide PREFIXES;
    var id := p + ":" + rest;
    KnownWord(p);
    KnownWord(TypeFor(p));
    SegmentBefore(TypeFor(p), rest);
    StartsIsSegment(id, "func");
    SegmentBefore(p, rest);
    assert "func" + ":" == "func:" && "function" + ":" == "function:";
    if p == "func" { assert id[5..] == rest; }
  }

  /** A known prefix that is there twice is there once afterwards. */
  lemma DoubledLosesOne(p: string, rest: string, n: Node)
    requires Known(p)
    ensures Normalize(p + ":" + p + ":" + rest, n) == TypeFor(p) + ":" + rest
  {
    hide PREFIXES, NodeType;
    KnownWord(p);
    var id, once := p + ":" + p + ":" + rest, p + ":" + rest;
    assert id == p + ":" + once;
    SegmentBefore(p, once);
    SegmentBefore(p, rest);
    assert id[|p| + 1..] == once && p + ":" <= once;
    assert StripDouble(id) == once && StripProject(once) == once;
    Renames(p, rest);
  }

  /** What the pattern of the project prefix takes of the text after it. */
  predicate OneLine(rest: string, body: string) {
    body != "" && '\n' !in body && (rest == body || rest == body + "\n")
  }

  predicate ProjectForm(id: string, w: string, p: string, rest: string, body: string) {
    w != "" && ':' !in w && Known(p) && OneLine(rest, body) && id == w + ":" + p + ":" + rest
  }

  /** The name of a project before a known prefix goes. */
  lemma ProjectGoes(id: string, w: string, p: string, rest: string, body: string, n: Node)
    requires ProjectForm(id, w, p, rest, body) && !Known(w)
    ensures Normalize(id, n) == TypeFor(p) + ":" + body
  {
    hide PREFIXES, NodeType, FirstSegment, LastLine, Canonicalize;
    KnownWord(p);
    KnownExactly(w);
    ProjectParts(w, p, rest);
    LineOf(rest, body);
    assert !HasPrefix(id) && StripDouble(id) == id;
    assert StripProject(id) == p + ":" + body;
    Renames(p, body);
  }

  lemma LineOf(rest: string, body: string)
    requires OneLine(rest, body)
    ensures LastLine(rest) == Some(body)
  {
    if rest == body + "\n" { assert rest[..|rest| - 1] == body; }
  }

  lemma ProjectParts(w: string, p: string, rest: string)
    requires NoColon(w) && NoColon(p) && p in PREFIXES
    ensures var id := w + ":" + p + ":" + rest;
      FirstSegment(id) == w && |w| < |id| && id[|w| + 1..] == p + ":" + rest
      && FirstSegment(p + ":" + rest) == p && (p + ":" + rest)[|p| + 1..] == rest && HasPrefix(p + ":" + rest)
  {
    hide PREFIXES;
    var id := w + ":" + p + ":" + rest;
    assert id == w + ":" + (p + ":" + rest);
    SegmentBefore(w, p + ":" + rest);
    SegmentBefore(p, rest);
  }

  /** An id with no known prefix, and no known prefix after a project's name either. */
  ghost predicate Bare(id: string) {
    && (forall p :: Known(p) ==> !(p + ":" <= id))
    && (forall w, p, rest, body :: !ProjectForm(id, w, p, rest, body))
  }

  function KindName(n: Node): string {
    match n.kind case None => "file" case Some(kind) => kind
  }

  /** A bare id gets the prefix of its node's type; an unknown type, or none, is a file. */
  lemma BareGetsPrefix(id: string, n: Node)
    requires Bare(id) && KindName(n) !in ["function", "class"]
    ensures Normalize(id, n) == (if Known(KindName(n)) then TypeFor(KindName(n)) else "file") + ":" + id
  {
    hide Strip, Known, HasPrefix, PREFIXES, TypePrefix, NodeType, Bare;
    BareIsKept(id);
    PrefixOfType(KindName(n));
  }

  /** For a function or a class the path and the name stand after the prefix. */
  lemma BareGetsPlace(id: string, n: Node)
    requires Bare(id) && KindName(n) in ["function", "class"]
    ensures var path := if n.filePath == "" then "__nofilepath__" else n.filePath;
      var name := if n.name.Some? then n.name.value else id;
      Normalize(id, n) == KindName(n) + ":" + path + ":" + name
  {
    hide Strip, Known, HasPrefix, PREFIXES, TypePrefix, Bare;
    BareIsKept(id);
    PrefixOfType(KindName(n));
    assert NodeType("function") && NodeType("class");
  }

  lemma PrefixOfType(kind: string)
    ensures TypePrefix(kind) == if Known(kind) then TypeFor(kind) else "file"
    ensures kind == "func" || NodeType(kind) <==> Known(kind)
  {
    hide PREFIXES;
    KnownExactly(kind);
  }

  lemma BareIsKept(id: string)
    requires Bare(id)
    ensures Strip(id) == id && !HasPrefix(id)
  {
    hide PREFIXES, NodeType, StripProject, ProjectForm;
    BareHasNoPrefix(id);
    StripsNoProject(id);
    assert "func:" == "func" + ":" && Known("func");
  }

  lemma BareHasNoPrefix(id: string)
    requires Bare(id)
    ensures !HasPrefix(id)
  {
    hide PREFIXES, NodeType, ProjectForm;
    var first := FirstSegment(id);
    KnownExactly(first);
    if |first| < |id| { StartsIsSegment(id, first); }
  }

  lemma StripsNoProject(id: string)
    requires Bare(id)
    ensures StripProject(id) == id
  {
    hide PREFIXES, NodeType, LastLine, OneLine, HasPrefix, ProjectForm;
    var first := FirstSegment(id);
    if first != "" && |first| < |id| && HasPrefix(id[|first| + 1..]) { ProjectFormOf(id); }
  }

  lemma ProjectFormOf(id: string)
    requires var first := FirstSegment(id); first != "" && |first| < |id| && HasPrefix(id[|first| + 1..])
    ensures var rest := id[|FirstSegment(id)| + 1..];
      LastLine(rest[|FirstSegment(rest)| + 1..]).Some? ==> exists w, p, tail, body :: ProjectForm(id, w, p, tail, body)
  {
    hide PREFIXES, Known, LastLine, OneLine, FirstSegment, HasPrefix;
    var first := FirstSegment(id);
    var rest := id[|first| + 1..];
    var second := FirstSegment(rest);
    PrefixParts(rest);
    var tail := rest[|second| + 1..];
    if LastLine(tail).Some? {
      LineFound(tail);
      assert id == first + ":" + rest;
      assert first + ":" + (second + ":" + tail) == first + ":" + second + ":" + tail;
      assert ProjectForm(id, first, second, tail, LastLine(tail).value);
    }
  }

  lemma PrefixParts(s: string)
    requires HasPrefix(s)
    ensures var p := FirstSegment(s); Known(p) && |p| < |s| && s == p + ":" + s[|p| + 1..]
  {
    hide PREFIXES, NodeType;
    KnownExactly(FirstSegment(s));
  }

  lemma LineFound(tail: string)
    requires LastLine(tail).Some?
    ensures OneLine(tail, LastLine(tail).value)
  {
    if tail != "" && tail[|tail| - 1] == '\n' { assert tail == tail[..|tail| - 1] + "\n"; }
  }
}
