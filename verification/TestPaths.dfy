/** Which file paths are tests by naming convention, and which production files
    a test path may belong to. */
module TestPaths {
  import opened Wrappers

  predicate EndsWith(s: string, suffix: string) {
    |suffix| <= |s| && s[|s| - |suffix|..] == suffix
  }

  predicate StartsWith(s: string, prefix: string) {
    prefix <= s
  }

  function DropEnd(s: string, n: nat): string {
    if n <= |s| then s[..|s| - n] else ""
  }

  // ------------------------------------------------------------ path parts

  function Segments(path: string): seq<string> {
    SplitFrom(path, "")
  }

  /** The non-empty segments of `acc + path`, where `acc` has no slash. */
  function SplitFrom(path: string, acc: string): seq<string>
    decreases |path|
  {
    if path == "" then (if acc == "" then [] else [acc])
    else if path[0] == '/' then (if acc == "" then [] else [acc]) + SplitFrom(path[1..], "")
    else SplitFrom(path[1..], acc + [path[0]])
  }

  function Basename(path: string): string
    decreases |path|
  {
    if path == "" then ""
    else if path[|path| - 1] == '/' then ""
    else Basename(path[..|path| - 1]) + [path[|path| - 1]]
  }

  /** The position of the last dot, if there is one. */
  function LastDot(s: string): (d: int)
    ensures -1 <= d < |s|
  {
    if s == "" then -1
    else if s[|s| - 1] == '.' then |s| - 1
    else LastDot(s[..|s| - 1])
  }

  predicate AllDots(s: string) { forall k :: 0 <= k < |s| ==> s[k] == '.' }

  /** `os.path.splitext` on a basename: leading dots never start an extension. */
  function SplitExt(name: string): (string, string) {
    var d := LastDot(name);
    if d < 0 || AllDots(name[..d]) then (name, "") else (name[..d], name[d..])
  }

  function Join(parts: seq<string>): string {
    if parts == [] then "" else if |parts| == 1 then parts[0] else parts[0] + "/" + Join(parts[1..])
  }

  function JoinDir(dir: string, name: string): string {
    if dir == "" then name else dir + "/" + name
  }

  // -------------------------------------------------------- classification

  const JS_TS_EXTS: seq<string> := [".ts", ".tsx", ".js", ".jsx", ".mjs", ".cjs", ".vue"]

  predicate IsTestPath(path: string) {
    var (stem, ext) := SplitExt(Basename(path));
    IsTestName(stem, ext)
  }

  predicate IsTestName(stem: string, ext: string) {
    if ext in JS_TS_EXTS then EndsWith(stem, ".test") || EndsWith(stem, ".spec")
    else if ext == ".go" then EndsWith(stem, "_test")
    else if ext in [".py", ".c", ".cpp", ".cc"] then StartsWith(stem, "test_") || EndsWith(stem, "_test")
    else if ext == ".java" then EndsWith(stem, "Test") || EndsWith(stem, "Tests") || EndsWith(stem, "IT")
    else if ext in [".kt", ".cs"] then EndsWith(stem, "Test") || EndsWith(stem, "Tests")
    else if ext == ".scala" then
      EndsWith(stem, "Spec") || EndsWith(stem, "Suite") || EndsWith(stem, "Test") || EndsWith(stem, "Tests")
    else false
  }

  // ------------------------------------------------------------ candidates

  /** The stem without the first of the suffixes it ends with. */
  function StripSuffix(stem: string, suffixes: seq<string>): (base: Option<string>)
    ensures base.Some? <==> exists k :: 0 <= k < |suffixes| && EndsWith(stem, suffixes[k])
  {
    if suffixes == [] then None
    else if EndsWith(stem, suffixes[0]) then Some(DropEnd(stem, |suffixes[0]|))
    else StripSuffix(stem, suffixes[1..])
  }

  /** Python and C family: a "test_" prefix, else a "_test" suffix. */
  function StripTestWord(stem: string): Option<string> {
    if StartsWith(stem, "test_") then Some(stem[5..])
    else if EndsWith(stem, "_test") then Some(DropEnd(stem, 5))
    else None
  }

  function InFamily(dir: string, base: string, exts: seq<string>): seq<string> {
    if exts == [] then [] else [JoinDir(dir, base + exts[0])] + InFamily(dir, base, exts[1..])
  }

  /** The test's own extension first, then the whole family. */
  function Siblings(dir: string, base: string, ext: string): seq<string> {
    [JoinDir(dir, base + ext)] + InFamily(dir, base, JS_TS_EXTS)
  }

  function MirrorDir(root: string, tail: string): string {
    if root == "" then tail else if tail == "" then root else root + "/" + tail
  }

  function JsProposals(dirs: seq<string>, base: string, ext: string): seq<string> {
    Siblings(Join(dirs), base, ext) +
    (if dirs != [] && dirs[|dirs| - 1] in ["__tests__", "test", "spec", "tests"]
     then Siblings(Join(dirs[..|dirs| - 1]), base, ext) else []) +
    (if dirs != [] && dirs[0] in ["tests", "test", "__tests__"] then
       var tail := Join(dirs[1..]);
       Siblings(MirrorDir("src", tail), base, ext) + Siblings(MirrorDir("app", tail), base, ext) +
       Siblings(MirrorDir("lib", tail), base, ext) + Siblings(tail, base, ext)
     else [])
  }

  function PyProposals(dirs: seq<string>, base: string): seq<string> {
    [JoinDir(Join(dirs), base + ".py")] +
    (if dirs != [] && dirs[|dirs| - 1] in ["tests", "test"]
     then [JoinDir(Join(dirs[..|dirs| - 1]), base + ".py")] else []) +
    (if dirs != [] && dirs[0] in ["tests", "test"] then
       var tail := Join(dirs[1..]);
       [JoinDir(MirrorDir("src", tail), base + ".py"), JoinDir(MirrorDir("app", tail), base + ".py"),
        JoinDir(MirrorDir("lib", tail), base + ".py"), JoinDir(tail, base + ".py")]
     else [])
  }

  /** Maven and Gradle: `src/test/<lang>/...` mirrors `src/main/<lang>/...`. */
  function JvmProposals(dirs: seq<string>, base: string, lang: string, ext: string): seq<string> {
    (if |dirs| >= 3 && dirs[..3] == ["src", "test", lang]
     then [Join(["src", "main", lang] + dirs[3..]) + "/" + base + ext] else []) +
    [JoinDir(Join(dirs), base + ext)]
  }

  /** sbt: the first `src/test/scala` anywhere in the path, module prefix kept. */
  function ScalaMirror(dirs: seq<string>, i: nat): Option<seq<string>>
    decreases |dirs| - i
  {
    if i + 3 > |dirs| then None
    else if dirs[i..i + 3] == ["src", "test", "scala"] then Some(dirs[..i] + ["src", "main", "scala"] + dirs[i + 3..])
    else ScalaMirror(dirs, i + 1)
  }

  function ScalaProposals(dirs: seq<string>, base: string): seq<string> {
    (match ScalaMirror(dirs, 0)
     case Some(mirror) => [Join(mirror) + "/" + base + ".scala"]
     case None => []) +
    [JoinDir(Join(dirs), base + ".scala")]
  }

  /** ASCII lower-casing, enough to recognise a directory named "Tests". */
  function Lower(s: string): string {
    if s == "" then "" else [if 'A' <= s[0] <= 'Z' then (s[0] as int + 32) as char else s[0]] + Lower(s[1..])
  }

  function LastTestsDir(dirs: seq<string>): (i: int)
    ensures -1 <= i < |dirs|
  {
    if dirs == [] then -1
    else if Lower(dirs[|dirs| - 1]) in ["tests", "test"] then |dirs| - 1
    else LastTestsDir(dirs[..|dirs| - 1])
  }

  function CsProposals(dirs: seq<string>, base: string): seq<string> {
    [JoinDir(Join(dirs), base + ".cs")] +
    (var i := LastTestsDir(dirs);
     if i < 0 then []
     else [JoinDir(Join(dirs[..i]), base + ".cs"), JoinDir(Join(dirs[..i] + ["src"] + dirs[i + 1..]), base + ".cs")]) +
    (if dirs == [] then []
     else
       match StripSuffix(dirs[0], [".Tests", ".Test"])
       case Some(sibling) => if sibling == "" then [] else [JoinDir(Join([sibling] + dirs[1..]), base + ".cs")]
       case None => [])
  }

  /** The stem of the production file that a test file's stem is built on. */
  function BaseStem(stem: string, ext: string): Option<string> {
    if ext in JS_TS_EXTS then StripSuffix(stem, [".test", ".spec"])
    else if ext == ".go" then StripSuffix(stem, ["_test"])
    else if ext in [".py", ".c", ".cpp", ".cc"] then StripTestWord(stem)
    else if ext == ".java" then StripSuffix(stem, ["Tests", "Test", "IT"])
    else if ext in [".kt", ".cs"] then StripSuffix(stem, ["Tests", "Test"])
    else if ext == ".scala" then StripSuffix(stem, ["Spec", "Suite", "Tests", "Test"])
    else None
  }

  function ProposalsFor(dirs: seq<string>, base: string, ext: string): seq<string> {
    if ext in JS_TS_EXTS then JsProposals(dirs, base, ext)
    else if ext == ".py" then PyProposals(dirs, base)
    else if ext == ".java" then JvmProposals(dirs, base, "java", ext)
    else if ext == ".kt" then JvmProposals(dirs, base, "kotlin", ext)
    else if ext == ".scala" then ScalaProposals(dirs, base)
    else if ext == ".cs" then CsProposals(dirs, base)
    else [JoinDir(Join(dirs), base + ext)]
  }

  /** Every path proposed for a test path, in priority order, repeats included. */
  function Proposals(path: string): seq<string> {
    var (stem, ext) := SplitExt(Basename(path));
    var segments := Segments(path);
    var dirs := if segments == [] then [] else segments[..|segments| - 1];
    match BaseStem(stem, ext)
    case Some(base) => ProposalsFor(dirs, base, ext)
    case None => []
  }

  /** The paths of `proposed` in order, without repeats and without empty ones. */
  function Unique(proposed: seq<string>): seq<string> {
    if proposed == [] then []
    else AddUnique(Unique(proposed[..|proposed| - 1]), proposed[|proposed| - 1])
  }

  function AddUnique(out: seq<string>, path: string): seq<string> {
    if path == "" || path in out then out else out + [path]
  }

  method ProductionCandidates(path: string) returns (candidates: seq<string>)
    ensures candidates == Candidates(path)
  {
    hide Proposals, IsTestPath;
    var proposed := Proposals(path);
    candidates := [];
    for i := 0 to |proposed|
      invariant candidates == Unique(proposed[..i])
    {
      assert proposed[..i + 1][..i] == proposed[..i];
      if proposed[i] != "" && proposed[i] !in candidates {
        candidates := candidates + [proposed[i]];
      }
    }
    assert proposed[..|proposed|] == proposed;
  }

  function Candidates(path: string): seq<string> {
    Unique(Proposals(path))
  }

  // ------------------------------------------------------------ properties

  lemma {:induction false} UniqueKeepsAll(proposed: seq<string>)
    ensures forall p :: p in Unique(proposed) <==> p in proposed && p != ""
    ensures forall i, j :: 0 <= i < j < |Unique(proposed)| ==> Unique(proposed)[i] != Unique(proposed)[j]
  {
    if proposed != [] {
      var init, last := proposed[..|proposed| - 1], proposed[|proposed| - 1];
      UniqueKeepsAll(init);
      assert proposed == init + [last];
    }
  }

  lemma StripOne(stem: string, a: string)
    ensures StripSuffix(stem, [a]).Some? <==> EndsWith(stem, a)
  {
  }

  lemma StripTwo(stem: string, a: string, b: string)
    ensures StripSuffix(stem, [a, b]).Some? <==> EndsWith(stem, a) || EndsWith(stem, b)
  {
    hide EndsWith;
    assert [a, b][1..] == [b];
  }

  lemma StripThree(stem: string, a: string, b: string, c: string)
    ensures StripSuffix(stem, [a, b, c]).Some? <==> EndsWith(stem, a) || EndsWith(stem, b) || EndsWith(stem, c)
  {
    hide EndsWith;
    assert [a, b, c][1..] == [b, c];
    StripTwo(stem, b, c);
  }

  /** The naming patterns that make a file a test are exactly those that name a base stem. */
  lemma BaseStemExactlyForTests(stem: string, ext: string)
    ensures BaseStem(stem, ext).Some? <==> IsTestName(stem, ext)
  {
    hide StripSuffix, EndsWith, StartsWith;
    StripTwo(stem, ".test", ".spec");
    StripOne(stem, "_test");
    StripThree(stem, "Tests", "Test", "IT");
    StripTwo(stem, "Tests", "Test");
    StripThree(stem, "Suite", "Tests", "Test");
    assert StripSuffix(stem, ["Spec", "Suite", "Tests", "Test"]).Some? <==>
      EndsWith(stem, "Spec") || StripSuffix(stem, ["Suite", "Tests", "Test"]).Some? by {
      assert ["Spec", "Suite", "Tests", "Test"] == ["Spec"] + ["Suite", "Tests", "Test"];
      StripFirst(stem, "Spec", ["Suite", "Tests", "Test"]);
    }
  }

  lemma StripFirst(stem: string, a: string, rest: seq<string>)
    ensures StripSuffix(stem, [a] + rest).Some? <==> EndsWith(stem, a) || StripSuffix(stem, rest).Some?
  {
    assert ([a] + rest)[1..] == rest;
  }

  /** The plain sibling is always among the proposals. */
  lemma ProposesSibling(dirs: seq<string>, base: string, ext: string)
    ensures JoinDir(Join(dirs), base + ext) in ProposalsFor(dirs, base, ext)
  {
    hide Join, JoinDir, Siblings, InFamily, ScalaMirror, StripSuffix, LastTestsDir;
    var ps := ProposalsFor(dirs, base, ext);
    var sibling := JoinDir(Join(dirs), base + ext);
    if ext in JS_TS_EXTS {
      assert Siblings(Join(dirs), base, ext)[0] == sibling by { SiblingFirst(Join(dirs), base, ext); }
      assert ps[0] == sibling;
    } else if ext in [".java", ".kt", ".scala"] {
      assert ps[|ps| - 1] == sibling;
    } else {
      assert ps[0] == sibling;
    }
  }

  lemma SiblingFirst(dir: string, base: string, ext: string)
    ensures |Siblings(dir, base, ext)| > 0 && Siblings(dir, base, ext)[0] == JoinDir(dir, base + ext)
  {
  }

  lemma NoneUnique()
    ensures Unique([]) == []
  {
  }

  lemma NoExtNoTest(stem: string)
    ensures !IsTestName(stem, "")
  {
  }

  /** The two functions agree on what a test is: a path has candidates exactly
      when it is a test path; the candidates are distinct, non-empty proposals. */
  lemma CandidatesExactlyForTests(path: string)
    ensures Candidates(path) != [] <==> IsTestPath(path)
    ensures forall c :: c in Candidates(path) <==> c in Proposals(path) && c != ""
    ensures forall i, j :: 0 <= i < j < |Candidates(path)| ==> Candidates(path)[i] != Candidates(path)[j]
  {
    hide BaseStem, ProposalsFor, IsTestName, Join, Segments, Unique;
    UniqueKeepsAll(Proposals(path));
    var (stem, ext) := SplitExt(Basename(path));
    BaseStemExactlyForTests(stem, ext);
    var segments := Segments(path);
    var dirs := if segments == [] then [] else segments[..|segments| - 1];
    if IsTestPath(path) {
      var base := BaseStem(stem, ext).value;
      ProposesSibling(dirs, base, ext);
      assert ext != "" by { NoExtNoTest(stem); }
      assert JoinDir(Join(dirs), base + ext) != "";
      assert JoinDir(Join(dirs), base + ext) in Candidates(path);
    } else {
      assert Candidates(path) == [] by { NoneUnique(); }
    }
  }
}
