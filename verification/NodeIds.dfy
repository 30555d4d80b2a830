/** Normalization of node ids: `prefix:rest`, with a prefix from a fixed set. */
module NodeIds {
  import opened TestPaths
  import opened LinkTests
  import opened Wrappers

  const PREFIXES: set<string> := {
    "file", "func", "function", "class", "module", "concept",
    "config", "document", "service", "table", "endpoint",
    "pipeline", "schema", "resource", "domain", "flow", "step",
    "article", "entity", "topic", "claim", "source"
  }

  predicate NoColon(s: string) { ':' !in s }

  /** The text before the first colon; all of it if there is none. */
  function FirstSegment(s: string): (seg: string)
    ensures seg <= s && NoColon(seg)
    ensures |seg| < |s| ==> s[|seg|] == ':'
  {
    if s == "" || s[0] == ':' then "" else [s[0]] + FirstSegment(s[1..])
  }

  predicate HasPrefix(id: string) {
    |FirstSegment(id)| < |id| && FirstSegment(id) in PREFIXES
  }

  lemma {:induction false} SegmentBefore(p: string, s: string)
    requires NoColon(p)
    ensures FirstSegment(p + ":" + s) == p
  {
    if p == "" {
      assert (p + ":" + s)[0] == ':';
    } else {
      assert p[0] in p && p[0] != ':';
      assert NoColon(p[1..]);
      SegmentBefore(p[1..], s);
      assert (p + ":" + s)[1..] == p[1..] + ":" + s;
    }
  }

  lemma PrefixesHaveNoColon()
    ensures forall p :: p in PREFIXES ==> NoColon(p)
  {
  }

  /** Starting with a prefix and a colon is having it as first segment. */
  lemma StartsIsSegment(id: string, p: string)
    requires NoColon(p)
    ensures p + ":" <= id <==> FirstSegment(id) == p && |p| < |id|
  {
    if p + ":" <= id {
      assert id == p + ":" + id[|p| + 1..];
      SegmentBefore(p, id[|p| + 1..]);
    }
  }

  // -------------------------------------------------------- double prefix

  /** "file:file:x" loses one "file:". */
  function StripDouble(id: string): string {
    var p := FirstSegment(id);
    if HasPrefix(id) && p + ":" <= id[|p| + 1..] then id[|p| + 1..] else id
  }

  /** The script tries the prefixes in the set's iteration order, which is
      unspecified: the outcome does not depend on it. */
  method StripDoublePrefix(id: string) returns (r: string)
    ensures r == StripDouble(id)
  {
    var left := PREFIXES;
    PrefixesHaveNoColon();
    r := id;
    while left != {}
      invariant left <= PREFIXES
      invariant forall p :: p in PREFIXES - left ==> !(p + ":" + p + ":" <= id)
      decreases |left|
    {
      var p :| p in left;
      DoubleIs(id, p);
      if p + ":" + p + ":" <= id {
        r := id[|p| + 1..];
        return;
      }
      left := left - {p};
    }
    var p := FirstSegment(id);
    if HasPrefix(id) {
      DoubleIs(id, p);
    }
  }

  lemma DoubleIs(id: string, p: string)
    requires NoColon(p)
    ensures p + ":" + p + ":" <= id <==> FirstSegment(id) == p && |p| < |id| && p + ":" <= id[|p| + 1..]
  {
    StartsIsSegment(id, p);
    assert p + ":" + p + ":" == (p + ":") + (p + ":");
    PrefixConcat(p + ":", p + ":", id);
  }

  lemma PrefixConcat(a: string, b: string, s: string)
    ensures a + b <= s <==> a <= s && b <= s[|a|..]
  {
    if a + b <= s {
      assert s[..|a|] == (a + b)[..|a|] && s[|a|..][..|b|] == (a + b)[|a|..];
    }
    if a <= s && b <= s[|a|..] {
      assert s[..|a| + |b|] == s[..|a|] + s[|a|..][..|b|];
    }
  }

  // ------------------------------------------------------- project prefix

  /** What `(.+)$` matches at the end of a text: no line break inside, one
      trailing line break tolerated and left out. */
  function LastLine(s: string): Option<string> {
    var body := if s != "" && s[|s| - 1] == '\n' then s[..|s| - 1] else s;
    if body != "" && '\n' !in body then Some(body) else None
  }

  /** "my-project:file:x" loses "my-project:". */
  function StripProject(id: string): string {
    var first := FirstSegment(id);
    if first == "" || |first| == |id| || first in PREFIXES then id
    else
      var rest := id[|first| + 1..];
      var second := FirstSegment(rest);
      if !HasPrefix(rest) then id
      else match LastLine(rest[|second| + 1..])
        case Some(body) => second + ":" + body
        case None => id
  }

  /** "func:x" becomes "function:x". */
  function Canonicalize(id: string): string {
    if "func:" <= id then "function:" + id[5..] else id
  }

  /** The part of the normalization that looks at the id alone. */
  function Strip(id: string): string {
    Canonicalize(StripProject(StripDouble(id)))
  }

  // ------------------------------------------------------- missing prefix

  function TypePrefix(kind: string): string {
    if kind == "func" then "function" else if kind in PREFIXES then kind else "file"
  }

  function AddPrefix(id: string, n: Node): string {
    var kind := match n.kind case Some(k) => k case None => "file";
    if kind == "function" || kind == "class" then
      var name := match n.name case Some(name) => name case None => id;
      TypePrefix(kind) + ":" + (if n.filePath != "" then n.filePath else "__nofilepath__") + ":" + name
    else TypePrefix(kind) + ":" + id
  }

  /** `normalize_node_id`. */
  function Normalize(id: string, n: Node): string {
    if HasPrefix(Strip(id)) then Strip(id) else AddPrefix(Strip(id), n)
  }

  // ------------------------------------------------------------ properties

  lemma TypePrefixKnown(kind: string)
    ensures TypePrefix(kind) in PREFIXES && NoColon(TypePrefix(kind))
  {
    PrefixesHaveNoColon();
  }

  lemma HasPrefixOf(p: string, rest: string)
    requires p in PREFIXES && NoColon(p)
    ensures HasPrefix(p + ":" + rest)
  {
    SegmentBefore(p, rest);
  }

  /** Every normalized id has a known prefix. */
  lemma NormalizedHasPrefix(id: string, n: Node)
    ensures HasPrefix(Normalize(id, n))
  {
    hide Strip, HasPrefix;
    if !HasPrefix(Strip(id)) {
      var kind := match n.kind case Some(k) => k case None => "file";
      TypePrefixKnown(kind);
      var p := TypePrefix(kind);
      var name := match n.name case Some(name) => name case None => Strip(id);
      var path := if n.filePath != "" then n.filePath else "__nofilepath__";
      HasPrefixOf(p, Strip(id));
      HasPrefixOf(p, path + ":" + name);
      assert p + ":" + path + ":" + name == p + ":" + (path + ":" + name);
    }
  }

  lemma CanonicalizeKeepsPrefix(id: string)
    requires HasPrefix(id)
    ensures HasPrefix(Canonicalize(id))
  {
    if "func:" <= id {
      assert "function" in PREFIXES;
      SegmentBefore("function", id[5..]);
      assert "function" + ":" + id[5..] == "function:" + id[5..];
    }
  }

  lemma StripDoubleKeepsPrefix(id: string)
    requires HasPrefix(id)
    ensures HasPrefix(StripDouble(id))
  {
    var p := FirstSegment(id);
    var rest := id[|p| + 1..];
    StartsIsSegment(rest, p);
  }

  /** An id that has a prefix keeps having one, whatever is stripped. */
  lemma StripKeepsPrefix(id: string)
    requires HasPrefix(id)
    ensures HasPrefix(Strip(id))
  {
    StripDoubleKeepsPrefix(id);
    assert StripProject(StripDouble(id)) == StripDouble(id);
    CanonicalizeKeepsPrefix(StripDouble(id));
  }

  /** Whether an id is already normal does not depend on the node that carries it. */
  lemma NormalForAll(id: string, m: Node, n: Node)
    requires Normalize(id, m) == id
    ensures Normalize(id, n) == id
  {
    NormalizedHasPrefix(id, m);
    StripKeepsPrefix(id);
  }
}
