/** The naming rules of the linker, as tables over directories, stems and extensions:
    which paths are tests, and which production paths are proposed for each. */
module TestPathRules {
  import opened Wrappers
  import opened TestPaths

  // ------------------------------------------------------------ path parts

  function Slashed(dirs: seq<string>, name: string): string {
    if dirs == [] then name else dirs[0] + "/" + Slashed(dirs[1..], name)
  }

  predicate Segment(s: string) { s != "" && '/' !in s }

  predicate AllSegments(dirs: seq<string>) { forall k :: 0 <= k < |dirs| ==> Segment(dirs[k]) }

  predicate Extension(ext: string) { ext != "" && ext[0] == '.' && '.' !in ext[1..] && '/' !in ext }

  lemma {:induction false} SplitSegment(seg: string, rest: string, acc: string)
    requires '/' !in seg && acc + seg != ""
    ensures SplitFrom(seg + "/" + rest, acc) == [acc + seg] + SplitFrom(rest, "")
    ensures SplitFrom(seg, acc) == [acc + seg]
    decreases |seg|
  {
    if seg == "" {
      assert ("" + "/" + rest)[1..] == rest;
      assert acc + "" == acc;
    } else {
      assert seg[0] in seg;
      SplitSegment(seg[1..], rest, acc + [seg[0]]);
      assert (seg + "/" + rest)[1..] == seg[1..] + "/" + rest;
      assert acc + [seg[0]] + seg[1..] == acc + seg;
    }
  }

  lemma {:induction false} SegmentsOf(dirs: seq<string>, name: string)
    requires AllSegments(dirs) && Segment(name)
    ensures Segments(Slashed(dirs, name)) == dirs + [name]
  {
    if dirs == [] {
      SplitSegment(name, "", "");
      assert "" + name == name && dirs + [name] == [name];
    } else {
      SegmentsOf(dirs[1..], name);
      SplitSegment(dirs[0], Slashed(dirs[1..], name), "");
      assert "" + dirs[0] == dirs[0];
      assert dirs + [name] == [dirs[0]] + (dirs[1..] + [name]);
    }
  }

  lemma {:induction false} BasenameOf(before: string, name: string)
    requires '/' !in name && (before == "" || before[|before| - 1] == '/')
    ensures Basename(before + name) == name
  {
    if name == "" {
      assert before + name == before;
    } else {
      var n := |name| - 1;
      assert (before + name)[..|before + name| - 1] == before + name[..n];
      assert name[n] in name;
      BasenameOf(before, name[..n]);
      assert name == name[..n] + [name[n]];
    }
  }

  lemma {:induction false} SlashedEnds(dirs: seq<string>, name: string) returns (before: string)
    ensures Slashed(dirs, name) == before + name && (before == "" || before[|before| - 1] == '/')
  {
    before := "";
    if dirs != [] {
      var rest := SlashedEnds(dirs[1..], name);
      before := dirs[0] + "/" + rest;
    }
  }

  lemma {:induction false} LastDotOf(stem: string, tail: string)
    requires '.' !in tail
    ensures LastDot(stem + "." + tail) == |stem|
  {
    var s := stem + "." + tail;
    if tail == "" {
      assert s[|s| - 1] == '.';
    } else {
      var n := |tail| - 1;
      assert tail[n] in tail;
      assert s[..|s| - 1] == stem + "." + tail[..n];
      LastDotOf(stem, tail[..n]);
    }
  }

  predicate Stem(stem: string) { '/' !in stem && !AllDots(stem) }

  /** A path is taken apart into its directories, its stem and its extension. */
  lemma PathParts(dirs: seq<string>, stem: string, ext: string)
    requires AllSegments(dirs) && Stem(stem) && Extension(ext)
    ensures Segments(Slashed(dirs, stem + ext)) == dirs + [stem + ext]
    ensures SplitExt(Basename(Slashed(dirs, stem + ext))) == (stem, ext)
  {
    var name := stem + ext;
    assert Segment(name);
    SegmentsOf(dirs, name);
    var before := SlashedEnds(dirs, name);
    BasenameOf(before, name);
    assert name == stem + "." + ext[1..] && name[..|stem|] == stem && name[|stem|..] == ext;
    LastDotOf(stem, ext[1..]);
  }

  // ------------------------------------------------------- what is a test

  predicate Matches(stem: string, prefixes: seq<string>, suffixes: seq<string>) {
    (exists k :: 0 <= k < |prefixes| && prefixes[k] <= stem) || (exists k :: 0 <= k < |suffixes| && EndsWith(stem, suffixes[k]))
  }

  /** A path is a test exactly if its stem begins or ends as its extension asks. */
  lemma TestsExactly(dirs: seq<string>, stem: string, ext: string)
    requires AllSegments(dirs) && Stem(stem) && Extension(ext)
    ensures var test := IsTestPath(Slashed(dirs, stem + ext));
      && (ext in [".ts", ".tsx", ".js", ".jsx", ".mjs", ".cjs", ".vue"] ==> (test <==> Matches(stem, [], [".test", ".spec"])))
      && (ext == ".go" ==> (test <==> Matches(stem, [], ["_test"])))
      && (ext in [".py", ".c", ".cpp", ".cc"] ==> (test <==> Matches(stem, ["test_"], ["_test"])))
      && (ext == ".java" ==> (test <==> Matches(stem, [], ["Test", "Tests", "IT"])))
      && (ext in [".kt", ".cs"] ==> (test <==> Matches(stem, [], ["Test", "Tests"])))
      && (ext == ".scala" ==> (test <==> Matches(stem, [], ["Spec", "Suite", "Test", "Tests"])))
      && (ext !in [".ts", ".tsx", ".js", ".jsx", ".mjs", ".cjs", ".vue", ".go", ".py", ".c", ".cpp", ".cc", ".java", ".kt", ".cs", ".scala"] ==> !test)
  {
    hide Matches, EndsWith, Slashed, AllSegments, Stem, Extension, Segments;
    PathParts(dirs, stem, ext);
    MatchesShort(stem);
    assert IsTestPath(Slashed(dirs, stem + ext)) == IsTestName(stem, ext);
  }

  lemma MatchesShort(stem: string)
    ensures Matches(stem, [], [".test", ".spec"]) <==> EndsWith(stem, ".test") || EndsWith(stem, ".spec")
    ensures Matches(stem, [], ["_test"]) <==> EndsWith(stem, "_test")
    ensures Matches(stem, ["test_"], ["_test"]) <==> "test_" <= stem || EndsWith(stem, "_test")
    ensures Matches(stem, [], ["Test", "Tests"]) <==> EndsWith(stem, "Test") || EndsWith(stem, "Tests")
    ensures Matches(stem, [], ["Test", "Tests", "IT"]) <==> EndsWith(stem, "Test") || EndsWith(stem, "Tests") || EndsWith(stem, "IT")
    ensures Matches(stem, [], ["Spec", "Suite", "Test", "Tests"]) <==>
      EndsWith(stem, "Spec") || EndsWith(stem, "Suite") || EndsWith(stem, "Test") || EndsWith(stem, "Tests")
  {
    hide EndsWith;
    MatchOne(stem, "_test");
    MatchTwo(stem, ".test", ".spec");
    MatchTwo(stem, "Test", "Tests");
    MatchThree(stem, "Test", "Tests", "IT");
    MatchFour(stem, "Spec", "Suite", "Test", "Tests");
    MatchEither(stem, "test_", "_test");
  }

  lemma MatchOne(stem: string, a: string)
    ensures Matches(stem, [], [a]) <==> EndsWith(stem, a)
  {
    hide EndsWith;
    assert [a][0] == a;
  }

  lemma MatchTwo(stem: string, a: string, b: string)
    ensures Matches(stem, [], [a, b]) <==> EndsWith(stem, a) || EndsWith(stem, b)
  {
    hide EndsWith;
    assert [a, b][0] == a && [a, b][1] == b;
  }

  lemma MatchThree(stem: string, a: string, b: string, c: string)
    ensures Matches(stem, [], [a, b, c]) <==> EndsWith(stem, a) || EndsWith(stem, b) || EndsWith(stem, c)
  {
    hide EndsWith;
    var all := [a, b, c];
    assert all[0] == a && all[1] == b && all[2] == c;
  }

  lemma MatchFour(stem: string, a: string, b: string, c: string, d: string)
    ensures Matches(stem, [], [a, b, c, d]) <==> EndsWith(stem, a) || EndsWith(stem, b) || EndsWith(stem, c) || EndsWith(stem, d)
  {
    hide EndsWith;
    var all := [a, b, c, d];
    assert all[0] == a && all[1] == b && all[2] == c && all[3] == d;
  }

  lemma MatchEither(stem: string, a: string, b: string)
    ensures Matches(stem, [a], [b]) <==> a <= stem || EndsWith(stem, b)
  {
    hide EndsWith;
    assert [a][0] == a && [b][0] == b;
  }

  // ------------------------------------------------------------ the stem

  lemma EndsAt(base: string, suffix: string)
    ensures EndsWith(base + suffix, suffix) && DropEnd(base + suffix, |suffix|) == base
  {
  }

  lemma LastDiffers(base: string, suffix: string, other: string)
    requires suffix != "" && other != "" && suffix[|suffix| - 1] != other[|other| - 1]
    ensures !EndsWith(base + suffix, other)
  {
    var s := base + suffix;
    assert s[|s| - 1] == suffix[|suffix| - 1];
    if |other| <= |s| { assert s[|s| - |other|..][|other| - 1] == s[|s| - 1]; }
  }

  lemma {:induction false} StripsAt(base: string, suffixes: seq<string>, k: nat)
    requires k < |suffixes| && suffixes[k] != ""
    requires forall j :: 0 <= j < k ==> suffixes[j] != "" && suffixes[j][|suffixes[j]| - 1] != suffixes[k][|suffixes[k]| - 1]
    ensures StripSuffix(base + suffixes[k], suffixes) == Some(base)
    decreases k
  {
    hide EndsWith, DropEnd;
    EndsAt(base, suffixes[k]);
    if k > 0 {
      LastDiffers(base, suffixes[k], suffixes[0]);
      StripsAt(base, suffixes[1..], k - 1);
    }
  }

  /** What is left of a test's stem: no ending is part of another, and a beginning comes
      before an ending. */
  lemma StemExactly(base: string, ext: string, mark: string)
    ensures ext in [".ts", ".tsx", ".js", ".jsx", ".mjs", ".cjs", ".vue"] && mark in [".test", ".spec"] ==>
      BaseStem(base + mark, ext) == Some(base)
    ensures ext == ".go" && mark == "_test" ==> BaseStem(base + mark, ext) == Some(base)
    ensures ext in [".py", ".c", ".cpp", ".cc"] ==> BaseStem("test_" + base, ext) == Some(base)
    ensures ext in [".py", ".c", ".cpp", ".cc"] && mark == "_test" && !("test_" <= base + mark) ==>
      BaseStem(base + mark, ext) == Some(base)
    ensures ext == ".java" && mark in ["Test", "Tests", "IT"] ==> BaseStem(base + mark, ext) == Some(base)
    ensures ext in [".kt", ".cs"] && mark in ["Test", "Tests"] ==> BaseStem(base + mark, ext) == Some(base)
    ensures ext == ".scala" && mark in ["Spec", "Suite", "Test", "Tests"] ==> BaseStem(base + mark, ext) == Some(base)
  {
    hide StripSuffix, EndsWith, DropEnd;
    var js, java, jvm, scala := [".test", ".spec"], ["Tests", "Test", "IT"], ["Tests", "Test"], ["Spec", "Suite", "Tests", "Test"];
    if mark in js { StripsAt(base, js, if mark == ".test" then 0 else 1); }
    if mark == "_test" { StripsAt(base, ["_test"], 0); EndsAt(base, "_test"); }
    if mark in java { StripsAt(base, java, if mark == "Tests" then 0 else if mark == "Test" then 1 else 2); }
    if mark in jvm { StripsAt(base, jvm, if mark == "Tests" then 0 else 1); }
    if mark in scala { StripsAt(base, scala, if mark == "Spec" then 0 else if mark == "Suite" then 1 else if mark == "Tests" then 2 else 3); }
    assert ("test_" + base)[5..] == base;
  }

  // -------------------------------------------------------- the proposals

  /** What is proposed for a path depends on its parts. */
  lemma ProposedFor(dirs: seq<string>, stem: string, ext: string, base: string)
    requires AllSegments(dirs) && Stem(stem) && Extension(ext) && BaseStem(stem, ext) == Some(base)
    ensures Proposals(Slashed(dirs, stem + ext)) == ProposalsFor(dirs, base, ext)
  {
    hide Slashed, Segments, BaseStem, ProposalsFor;
    PathParts(dirs, stem, ext);
    assert (dirs + [stem + ext])[..|dirs|] == dirs;
  }

  lemma {:induction false} JoinedIs(dirs: seq<string>, name: string)
    requires AllSegments(dirs)
    ensures JoinDir(Join(dirs), name) == Slashed(dirs, name)
    ensures dirs != [] ==> Join(dirs) != "" && Join(dirs) + "/" + name == Slashed(dirs, name)
  {
    if |dirs| > 1 {
      JoinedIs(dirs[1..], name);
      assert dirs[0] + "/" + Join(dirs[1..]) + "/" + name == dirs[0] + "/" + (Join(dirs[1..]) + "/" + name);
    } else if |dirs| == 1 {
      assert dirs[1..] == [];
    }
  }

  lemma MirrorIs(root: string, tail: seq<string>, name: string)
    requires Segment(root) && AllSegments(tail)
    ensures JoinDir(MirrorDir(root, Join(tail)), name) == Slashed([root] + tail, name)
  {
    JoinedIs(tail, name);
    assert ([root] + tail)[1..] == tail;
    if tail != [] { assert root + "/" + Join(tail) + "/" + name == root + "/" + (Join(tail) + "/" + name); }
  }

  /** A name with the test's own extension, and then with each of the family. */
  function Family(dirs: seq<string>, base: string, ext: string): seq<string> {
    [Slashed(dirs, base + ext), Slashed(dirs, base + ".ts"), Slashed(dirs, base + ".tsx"), Slashed(dirs, base + ".js"),
     Slashed(dirs, base + ".jsx"), Slashed(dirs, base + ".mjs"), Slashed(dirs, base + ".cjs"), Slashed(dirs, base + ".vue")]
  }

  lemma {:induction false} InFamilyAt(dir: string, base: string, exts: seq<string>)
    ensures |InFamily(dir, base, exts)| == |exts|
    ensures forall k :: 0 <= k < |exts| ==> InFamily(dir, base, exts)[k] == JoinDir(dir, base + exts[k])
  {
    hide JoinDir;
    if exts != [] { InFamilyAt(dir, base, exts[1..]); }
  }

  lemma FamilyIs(dir: string, dirs: seq<string>, base: string, ext: string)
    requires forall name :: JoinDir(dir, name) == Slashed(dirs, name)
    ensures Siblings(dir, base, ext) == Family(dirs, base, ext)
  {
    hide JoinDir, Slashed, InFamily;
    InFamilyAt(dir, base, JS_TS_EXTS);
  }

  /** JavaScript and TypeScript: beside the test; out of a test directory around it; and
      under the roots that a leading test directory mirrors. */
  lemma JsExactly(dirs: seq<string>, base: string, ext: string)
    requires AllSegments(dirs)
    ensures JsProposals(dirs, base, ext) ==
      Family(dirs, base, ext)
      + (if dirs != [] && dirs[|dirs| - 1] in {"__tests__", "tests", "test", "spec"} then Family(dirs[..|dirs| - 1], base, ext) else [])
      + (if dirs != [] && dirs[0] in {"__tests__", "tests", "test"}
         then Family(["src"] + dirs[1..], base, ext) + Family(["app"] + dirs[1..], base, ext)
              + Family(["lib"] + dirs[1..], base, ext) + Family(dirs[1..], base, ext) else [])
  {
    hide Siblings, Family, Join, Slashed, JoinDir, MirrorDir;
    FamilyHere(dirs, base, ext);
    if dirs != [] {
      var tail := dirs[1..];
      FamilyHere(dirs[..|dirs| - 1], base, ext);
      FamilyHere(tail, base, ext);
      FamilyUnder("src", tail, base, ext);
      FamilyUnder("app", tail, base, ext);
      FamilyUnder("lib", tail, base, ext);
    }
  }

  lemma FamilyHere(dirs: seq<string>, base: string, ext: string)
    requires AllSegments(dirs)
    ensures Siblings(Join(dirs), base, ext) == Family(dirs, base, ext)
  {
    hide Join, JoinDir, Slashed;
    forall name ensures JoinDir(Join(dirs), name) == Slashed(dirs, name) { JoinedIs(dirs, name); }
    FamilyIs(Join(dirs), dirs, base, ext);
  }

  lemma FamilyUnder(root: string, tail: seq<string>, base: string, ext: string)
    requires Segment(root) && AllSegments(tail)
    ensures Siblings(MirrorDir(root, Join(tail)), base, ext) == Family([root] + tail, base, ext)
  {
    hide Join, JoinDir, Slashed, MirrorDir;
    var dir := MirrorDir(root, Join(tail));
    forall name ensures JoinDir(dir, name) == Slashed([root] + tail, name) { MirrorIs(root, tail, name); }
    FamilyIs(dir, [root] + tail, base, ext);
  }

  /** Python: the same places for the one extension. */
  lemma PyExactly(dirs: seq<string>, base: string)
    requires AllSegments(dirs)
    ensures PyProposals(dirs, base) ==
      [Slashed(dirs, base + ".py")]
      + (if dirs != [] && dirs[|dirs| - 1] in {"tests", "test"} then [Slashed(dirs[..|dirs| - 1], base + ".py")] else [])
      + (if dirs != [] && dirs[0] in {"tests", "test"}
         then [Slashed(["src"] + dirs[1..], base + ".py"), Slashed(["app"] + dirs[1..], base + ".py"),
               Slashed(["lib"] + dirs[1..], base + ".py"), Slashed(dirs[1..], base + ".py")] else [])
  {
    hide Join, Slashed, JoinDir, MirrorDir;
    JoinedIs(dirs, base + ".py");
    if dirs != [] {
      var tail := dirs[1..];
      JoinedIs(dirs[..|dirs| - 1], base + ".py");
      JoinedIs(tail, base + ".py");
      MirrorIs("src", tail, base + ".py");
      MirrorIs("app", tail, base + ".py");
      MirrorIs("lib", tail, base + ".py");
    }
  }

  /** Java and Kotlin: from `src/test/<language>` to `src/main/<language>`, then beside the test. */
  lemma JvmExactly(dirs: seq<string>, base: string, lang: string, ext: string)
    requires AllSegments(dirs) && Segment(lang)
    ensures forall tail :: dirs == ["src", "test", lang] + tail ==>
      JvmProposals(dirs, base, lang, ext) == [Slashed(["src", "main", lang] + tail, base + ext), Slashed(dirs, base + ext)]
    ensures (forall tail :: dirs != ["src", "test", lang] + tail) ==> JvmProposals(dirs, base, lang, ext) == [Slashed(dirs, base + ext)]
  {
    hide Join, Slashed, JoinDir;
    JoinedIs(dirs, base + ext);
    if |dirs| >= 3 && dirs[..3] == ["src", "test", lang] {
      var tail := dirs[3..];
      assert dirs == ["src", "test", lang] + tail;
      var main := ["src", "main", lang] + tail;
      JoinedIs(main, base + ext);
      assert Join(main) + "/" + base + ext == Join(main) + "/" + (base + ext);
      forall other | dirs == ["src", "test", lang] + other ensures other == tail { assert other == dirs[3..]; }
    } else {
      forall tail ensures dirs != ["src", "test", lang] + tail {
        assert |["src", "test", lang] + tail| >= 3 && (["src", "test", lang] + tail)[..3] == ["src", "test", lang];
      }
    }
  }

  predicate SbtTests(dirs: seq<string>, i: nat) { i + 3 <= |dirs| && dirs[i..i + 3] == ["src", "test", "scala"] }

  /** Position `k` is the first from `i` on, and `mirror` has `main` in place of `test` there. */
  predicate MirrorsFirst(dirs: seq<string>, i: nat, k: nat, mirror: seq<string>) {
    && i <= k && SbtTests(dirs, k) && (forall j: nat :: i <= j < k ==> !SbtTests(dirs, j))
    && mirror == dirs[..k] + ["src", "main", "scala"] + dirs[k + 3..]
  }

  lemma MirrorHere(dirs: seq<string>, i: nat)
    ensures i + 3 > |dirs| ==> ScalaMirror(dirs, i).None? && forall k: nat :: i <= k ==> !SbtTests(dirs, k)
    ensures SbtTests(dirs, i) ==> ScalaMirror(dirs, i).Some? && MirrorsFirst(dirs, i, i, ScalaMirror(dirs, i).value)
    ensures i + 3 <= |dirs| && !SbtTests(dirs, i) ==> ScalaMirror(dirs, i) == ScalaMirror(dirs, i + 1)
  {
  }

  lemma MirrorLater(dirs: seq<string>, i: nat, k: nat, mirror: seq<string>)
    requires !SbtTests(dirs, i) && MirrorsFirst(dirs, i + 1, k, mirror)
    ensures MirrorsFirst(dirs, i, k, mirror)
  {
    hide SbtTests;
  }

  /** What the search from `i` on finds. */
  ghost predicate Mirrors(dirs: seq<string>, i: nat, found: Option<seq<string>>) {
    match found
    case None => forall k: nat :: i <= k ==> !SbtTests(dirs, k)
    case Some(mirror) => exists k: nat :: MirrorsFirst(dirs, i, k, mirror)
  }

  lemma {:induction false} ScalaMirrorFrom(dirs: seq<string>, i: nat)
    ensures Mirrors(dirs, i, ScalaMirror(dirs, i))
    decreases |dirs| - i
  {
    hide SbtTests, ScalaMirror, MirrorsFirst;
    MirrorHere(dirs, i);
    if i + 3 <= |dirs| && !SbtTests(dirs, i) {
      ScalaMirrorFrom(dirs, i + 1);
      if ScalaMirror(dirs, i).Some? {
        var k: nat :| MirrorsFirst(dirs, i + 1, k, ScalaMirror(dirs, i).value);
        MirrorLater(dirs, i, k, ScalaMirror(dirs, i).value);
      }
    }
  }

  /** Scala: the first `src/test/scala` of the path becomes `src/main/scala`, wherever it
      is; then beside the test. */
  lemma ScalaExactly(dirs: seq<string>, base: string)
    requires AllSegments(dirs)
    ensures forall k: nat :: SbtTests(dirs, k) && (forall j: nat :: j < k ==> !SbtTests(dirs, j)) ==>
      ScalaProposals(dirs, base) ==
        [Slashed(dirs[..k] + ["src", "main", "scala"] + dirs[k + 3..], base + ".scala"), Slashed(dirs, base + ".scala")]
    ensures (forall k: nat :: !SbtTests(dirs, k)) ==> ScalaProposals(dirs, base) == [Slashed(dirs, base + ".scala")]
  {
    hide Join, Slashed, JoinDir, ScalaMirror;
    JoinedIs(dirs, base + ".scala");
    ScalaMirrorFrom(dirs, 0);
    match ScalaMirror(dirs, 0)
    case None =>
    case Some(mirror) =>
      var k: nat :| MirrorsFirst(dirs, 0, k, mirror);
      AllMain(dirs, k);
      JoinedIs(mirror, base + ".scala");
      assert Join(mirror) + "/" + base + ".scala" == Join(mirror) + "/" + (base + ".scala");
      forall n: nat | SbtTests(dirs, n) && (forall j: nat :: j < n ==> !SbtTests(dirs, j)) ensures n == k {
        assert !(n < k) && !(k < n);
      }
  }

  lemma AllMain(dirs: seq<string>, k: nat)
    requires AllSegments(dirs) && k + 3 <= |dirs|
    ensures AllSegments(dirs[..k] + ["src", "main", "scala"] + dirs[k + 3..])
  {
  }

  predicate TestsDir(name: string) { Lower(name) in {"tests", "test"} }

  lemma {:induction false} LastTestsDirIs(before: seq<string>, dir: string, after: seq<string>)
    requires TestsDir(dir) && forall k :: 0 <= k < |after| ==> !TestsDir(after[k])
    ensures LastTestsDir(before + [dir] + after) == |before|
    decreases |after|
  {
    hide Lower;
    var dirs := before + [dir] + after;
    if after == [] {
      assert dirs[|dirs| - 1] == dir;
    } else {
      var n := |after| - 1;
      assert dirs[|dirs| - 1] == after[n] && dirs[..|dirs| - 1] == before + [dir] + after[..n];
      LastTestsDirIs(before, dir, after[..n]);
    }
  }

  lemma {:induction false} NoTestsDirIs(dirs: seq<string>)
    requires forall k :: 0 <= k < |dirs| ==> !TestsDir(dirs[k])
    ensures LastTestsDir(dirs) == -1
  {
    hide Lower;
    if dirs != [] { NoTestsDirIs(dirs[..|dirs| - 1]); }
  }

  /** The project beside a test project: its name without the ending. */
  function Sibling(dirs: seq<string>, base: string): seq<string> {
    if dirs == [] then []
    else if EndsWith(dirs[0], ".Tests") && dirs[0] != ".Tests" then [Slashed([DropEnd(dirs[0], 6)] + dirs[1..], base + ".cs")]
    else if EndsWith(dirs[0], ".Test") && dirs[0] != ".Test" then [Slashed([DropEnd(dirs[0], 5)] + dirs[1..], base + ".cs")]
    else []
  }

  lemma SiblingIs(dirs: seq<string>, base: string)
    requires AllSegments(dirs) && dirs != []
    ensures Sibling(dirs, base) ==
      match StripSuffix(dirs[0], [".Tests", ".Test"])
      case Some(sibling) => if sibling == "" then [] else [JoinDir(Join([sibling] + dirs[1..]), base + ".cs")]
      case None => []
  {
    hide Join, JoinDir, Slashed;
    assert [".Tests", ".Test"][1..] == [".Test"];
    if EndsWith(dirs[0], ".Tests") { SiblingPath(dirs, base, 6); LastDiffers(DropEnd(dirs[0], 6), ".Tests", ".Test"); }
    if EndsWith(dirs[0], ".Test") { SiblingPath(dirs, base, 5); }
  }

  lemma SiblingPath(dirs: seq<string>, base: string, n: nat)
    requires AllSegments(dirs) && dirs != [] && n <= |dirs[0]|
    ensures DropEnd(dirs[0], n) == "" <==> |dirs[0]| == n
    ensures DropEnd(dirs[0], n) != "" ==>
      JoinDir(Join([DropEnd(dirs[0], n)] + dirs[1..]), base + ".cs") == Slashed([DropEnd(dirs[0], n)] + dirs[1..], base + ".cs")
  {
    var name := DropEnd(dirs[0], n);
    if name != "" {
      assert forall c :: c in name ==> c in dirs[0];
      JoinedIs([name] + dirs[1..], base + ".cs");
    }
  }

  lemma CsUnfolds(dirs: seq<string>, base: string)
    requires AllSegments(dirs) && dirs != []
    ensures CsProposals(dirs, base) == [JoinDir(Join(dirs), base + ".cs")] + CsAround(dirs, LastTestsDir(dirs), base) + Sibling(dirs, base)
  {
    hide Join, JoinDir, LastTestsDir, StripSuffix, Sibling, AllSegments;
    SiblingIs(dirs, base);
  }

  function CsAround(dirs: seq<string>, i: int, base: string): seq<string>
    requires i < |dirs|
  {
    if i < 0 then []
    else [JoinDir(Join(dirs[..i]), base + ".cs"), JoinDir(Join(dirs[..i] + ["src"] + dirs[i + 1..]), base + ".cs")]
  }

  /** C# in a test directory: beside the test; around the last test directory, and in
      `src` in its place; and in the project beside the test project. */
  lemma CsInTests(dirs: seq<string>, before: seq<string>, dir: string, after: seq<string>, base: string)
    requires AllSegments(dirs) && dirs == before + [dir] + after
    requires TestsDir(dir) && forall k :: 0 <= k < |after| ==> !TestsDir(after[k])
    ensures CsProposals(dirs, base) ==
      [Slashed(dirs, base + ".cs")]
      + [Slashed(before, base + ".cs"), Slashed(before + ["src"] + after, base + ".cs")] + Sibling(dirs, base)
  {
    hide Join, JoinDir, Slashed, LastTestsDir, TestsDir, Sibling, AllSegments, CsProposals, CsAround;
    JoinedIs(dirs, base + ".cs");
    LastTestsDirIs(before, dir, after);
    CsUnfolds(dirs, base);
    AroundIs(dirs, before, dir, after, base);
  }

  lemma AroundIs(dirs: seq<string>, before: seq<string>, dir: string, after: seq<string>, base: string)
    requires AllSegments(dirs) && dirs == before + [dir] + after
    ensures CsAround(dirs, |before|, base) == [Slashed(before, base + ".cs"), Slashed(before + ["src"] + after, base + ".cs")]
  {
    hide Join, JoinDir, Slashed, AllSegments;
    assert dirs[..|before|] == before && dirs[|before| + 1..] == after;
    Around(before, dir, after);
    JoinedIs(before, base + ".cs");
    JoinedIs(before + ["src"] + after, base + ".cs");
  }

  /** C# elsewhere: beside the test, and in the project beside the test project. */
  lemma CsElsewhere(dirs: seq<string>, base: string)
    requires AllSegments(dirs) && forall k :: 0 <= k < |dirs| ==> !TestsDir(dirs[k])
    ensures CsProposals(dirs, base) == [Slashed(dirs, base + ".cs")] + Sibling(dirs, base)
  {
    hide Join, JoinDir, Slashed, LastTestsDir, StripSuffix, TestsDir, Sibling, AllSegments;
    JoinedIs(dirs, base + ".cs");
    NoTestsDirIs(dirs);
    NoSibling(base);
    if dirs != [] { SiblingIs(dirs, base); }
  }

  lemma NoSibling(base: string)
    ensures Sibling([], base) == []
  {
  }

  lemma Around(before: seq<string>, dir: string, after: seq<string>)
    requires AllSegments(before + [dir] + after)
    ensures AllSegments(before) && AllSegments(before + ["src"] + after)
  {
    var dirs := before + [dir] + after;
    forall k | 0 <= k < |before| ensures Segment(before[k]) { assert before[k] == dirs[k]; }
    forall k | 0 <= k < |after| ensures Segment(after[k]) { assert after[k] == dirs[|before| + 1 + k]; }
  }

  /** Which of these lists is proposed for which extension; Go and the C family propose
      the file beside the test only. */
  lemma ProposalsExactly(dirs: seq<string>, stem: string, ext: string, base: string)
    requires AllSegments(dirs) && Stem(stem) && Extension(ext) && BaseStem(stem, ext) == Some(base)
    ensures var path := Slashed(dirs, stem + ext);
      && (ext in {".ts", ".tsx", ".js", ".jsx", ".mjs", ".cjs", ".vue"} ==> Proposals(path) == JsProposals(dirs, base, ext))
      && (ext == ".py" ==> Proposals(path) == PyProposals(dirs, base))
      && (ext == ".java" ==> Proposals(path) == JvmProposals(dirs, base, "java", ".java"))
      && (ext == ".kt" ==> Proposals(path) == JvmProposals(dirs, base, "kotlin", ".kt"))
      && (ext == ".scala" ==> Proposals(path) == ScalaProposals(dirs, base))
      && (ext == ".cs" ==> Proposals(path) == CsProposals(dirs, base))
      && (ext in [".go", ".c", ".cpp", ".cc"] ==> Proposals(path) == [Slashed(dirs, base + ext)])
  {
    hide JsProposals, PyProposals, JvmProposals, ScalaProposals, CsProposals, Slashed, Join, JoinDir, BaseStem, Proposals;
    ProposedFor(dirs, stem, ext, base);
    JoinedIs(dirs, base + ext);
  }

  lemma AlreadyThere(proposed: seq<string>, q: nat)
    requires q < |proposed|
    ensures q < |proposed| - 1 && proposed[q] != "" ==> proposed[q] in Unique(proposed[..|proposed| - 1])
  {
    UniqueKeepsAll(proposed[..|proposed| - 1]);
    if q < |proposed| - 1 { assert proposed[..|proposed| - 1][q] == proposed[q]; }
  }

  /** Candidates are tried in the order in which they are first proposed. */
  lemma {:induction false} CandidatesInOrder(proposed: seq<string>, i: nat, j: nat, q: nat) returns (p: nat)
    requires i < j < |Unique(proposed)| && q < |proposed| && proposed[q] == Unique(proposed)[j]
    ensures p < q && proposed[p] == Unique(proposed)[i]
  {
    var init, last := proposed[..|proposed| - 1], proposed[|proposed| - 1];
    UniqueKeepsAll(init);
    UniqueKeepsAll(proposed);
    assert proposed == init + [last];
    if j < |Unique(init)| && q < |init| {
      p := CandidatesInOrder(init, i, j, q);
    } else {
      AlreadyThere(proposed, q);
      assert Unique(init)[i] in init;
      p :| 0 <= p < |init| && init[p] == Unique(init)[i];
    }
  }
}
