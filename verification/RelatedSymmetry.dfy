/** The related-file relation is symmetric, and exactly on which paths. */
module RelatedSymmetry {
  import opened Options
  import opened Text
  import opened RelatedFiles
  import opened RelatedPaths

  // ---------------------------------------------------------------------------
  // The rules

  const DIRS := {"test", "test/common", "source", "source/common", INTERFACE_SYNTHETIC_ROOT}
  const ENDINGS := {".h", ".cc", "_test.cc", "_impl.cc", "_impl.h", "_impl_test.cc"}

  function Synthetic(dir: string): string {
    if dir == INTERFACE_REAL_ROOT then INTERFACE_SYNTHETIC_ROOT else dir
  }

  function Real(dir: string): string {
    if dir == INTERFACE_SYNTHETIC_ROOT then INTERFACE_REAL_ROOT else dir
  }

  /** The rule that leads back. */
  function Inverse(r: Rule): Rule {
    Rule(Synthetic(r.dest), Real(r.source), r.destEnding, r.sourceEnding)
  }

  predicate Known(r: Rule) {
    r in TEST_RULES || r in SOURCE_RULES || r in HEADER_RULES || r in INTERFACE_RULES
  }

  function TopOf(dir: string): string {
    if dir == "source/common" then SOURCE_ROOT else if dir == "test/common" then TEST_ROOT else dir
  }

  function ExtensionOf(ending: string): string {
    if ending in {".h", "_impl.h"} then ".h" else ".cc"
  }

  lemma RuleParts(r: Rule)
    requires Known(r)
    ensures r.source in DIRS && Synthetic(r.dest) in DIRS && r.sourceEnding in ENDINGS && r.destEnding in ENDINGS
    ensures Real(Synthetic(r.dest)) == r.dest
  {}

  predicate LeadsBack(r: Rule) {
    Inverse(r) in RulesFor(TopOf(Synthetic(r.dest)), ExtensionOf(r.destEnding))
  }

  lemma InverseAt(r: Rule, rules: seq<Rule>, k: nat)
    requires k < |rules| && Inverse(r) == rules[k]
    requires rules == RulesFor(TopOf(Synthetic(r.dest)), ExtensionOf(r.destEnding))
    ensures LeadsBack(r)
  {}

  lemma TestRulesLeadBack(r: Rule)
    requires r in TEST_RULES
    ensures LeadsBack(r)
  {
    if r == TEST_RULES[0] {
      InverseAt(r, INTERFACE_RULES, 2);
    } else if r == TEST_RULES[1] {
      InverseAt(r, SOURCE_RULES, 1);
    } else if r == TEST_RULES[2] {
      InverseAt(r, HEADER_RULES, 0);
    } else {
      var k :| 0 <= k < |TEST_RULES| && r == TEST_RULES[k];
      TestToTestLeadsBack(k);
    }
  }

  lemma TestToTestLeadsBack(k: nat)
    requires 3 <= k < 9
    ensures LeadsBack(TEST_RULES[k])
  {
    InverseAt(TEST_RULES[k], TEST_RULES, if k < 6 then k + 3 else k - 3);
  }

  lemma SourceRulesLeadBack(r: Rule)
    requires r in SOURCE_RULES
    ensures LeadsBack(r)
  {
    if r == SOURCE_RULES[0] {
      InverseAt(r, HEADER_RULES, 2);
    } else if r == SOURCE_RULES[1] {
      InverseAt(r, TEST_RULES, 1);
    } else if r == SOURCE_RULES[2] {
      InverseAt(r, INTERFACE_RULES, 0);
    }
  }

  lemma HeaderRulesLeadBack(r: Rule)
    requires r in HEADER_RULES
    ensures LeadsBack(r)
  {
    if r == HEADER_RULES[0] {
      InverseAt(r, TEST_RULES, 2);
    } else if r == HEADER_RULES[1] {
      InverseAt(r, INTERFACE_RULES, 1);
    } else if r == HEADER_RULES[2] {
      InverseAt(r, SOURCE_RULES, 0);
    }
  }

  lemma InterfaceRulesLeadBack(r: Rule)
    requires r in INTERFACE_RULES
    ensures LeadsBack(r)
  {
    if r == INTERFACE_RULES[0] {
      InverseAt(r, SOURCE_RULES, 2);
    } else if r == INTERFACE_RULES[1] {
      InverseAt(r, HEADER_RULES, 1);
    } else if r == INTERFACE_RULES[2] {
      InverseAt(r, TEST_RULES, 0);
    }
  }

  /** Every rule has its inverse, among the rules for the files it leads to. */
  lemma RulesLeadBack(root: string, ext: string, r: Rule)
    requires r in RulesFor(root, ext)
    ensures Known(r) && LeadsBack(r)
  {
    if r in TEST_RULES { TestRulesLeadBack(r); }
    if r in SOURCE_RULES { SourceRulesLeadBack(r); }
    if r in HEADER_RULES { HeaderRulesLeadBack(r); }
    if r in INTERFACE_RULES { InterfaceRulesLeadBack(r); }
  }

  // ---------------------------------------------------------------------------
  // Roots and extensions

  lemma DirSafe(dir: string)
    requires dir in DIRS
    ensures Safe(dir)
  {}

  lemma EndingPlain(ending: string)
    requires ending in ENDINGS
    ensures NoSlash(ending) && ending != ""
  {}

  lemma {:induction false} RootPrefix(x: string, rest: string)
    requires NoSlash(x) && rest != "" && rest[0] == '/'
    ensures Root(x + rest) == x
  {
    if x != "" {
      RootPrefix(x[1..], rest);
      assert (x + rest)[1..] == x[1..] + rest;
    } else {
      assert x + rest == rest;
    }
  }

  lemma RootNested(top: string, y: string, rest: string)
    requires NoSlash(top)
    ensures Root(top + ("/" + y) + rest) == top
  {
    Associate(top, "/" + y, rest);
    RootPrefix(top, "/" + y + rest);
  }

  /** A directory is one element, or one element and another below it. */
  lemma DirShape(dir: string)
    requires dir in DIRS
    ensures NoSlash(TopOf(dir))
    ensures dir != TopOf(dir) ==> exists y :: NoSlash(y) && dir == TopOf(dir) + ("/" + y)
  {
    if dir == "source/common" {
      assert dir == "source" + ("/" + "common");
    } else if dir == "test/common" {
      assert dir == "test" + ("/" + "common");
    }
  }

  lemma RootOfDir(dir: string, rest: string)
    requires dir in DIRS && rest != "" && rest[0] == '/'
    ensures Root(dir + rest) == TopOf(dir)
  {
    DirShape(dir);
    if dir == TopOf(dir) {
      RootPrefix(dir, rest);
    } else {
      var y :| NoSlash(y) && dir == TopOf(dir) + ("/" + y);
      RootNested(TopOf(dir), y, rest);
    }
  }

  lemma LastChar(s: string, c: char, i: int)
    requires 0 <= i < |s| && s[i] == c && forall j :: i < j < |s| ==> s[j] != c
    ensures RFind(s, [c], |s|) == i
  {
    var k := RFind(s, [c], |s|);
    assert s[i..i + 1] == [c];
    assert OccursAt(s, [c], i);
    assert k >= i;
    assert s[k..k + 1] == [c];
    assert s[k] == c;
  }

  /** The leaf starts after the last slash, and so keeps an ending without one. */
  lemma LeafKeepsEnding(w: string, e: string)
    requires NoSlash(e)
    ensures exists v :: Leaf(w + e) == v + e
  {
    var path := w + e;
    var slash := RFind(path, "/", |path|);
    if slash >= 0 {
      assert path[slash..slash + 1] == "/";
      assert path[slash] == '/';
    }
    assert slash < |w|;
    assert Leaf(path) == w[slash + 1..] + e;
  }

  lemma ExtensionAtDot(v: string, x: string)
    requires x != "" && forall i :: 0 <= i < |x| ==> x[i] != '.'
    ensures Extension(v + ("." + x)) == Some("." + x)
  {
    var leaf := v + ("." + x);
    LastChar(leaf, '.', |v|);
    assert leaf[|v|..] == "." + x;
  }

  /** The extension starts at a dot after which there is neither a dot nor a slash. */
  lemma ExtensionIs(w: string, x: string)
    requires x != "" && forall i :: 0 <= i < |x| ==> x[i] != '.' && x[i] != '/'
    ensures Extension(Leaf(w + ("." + x))) == Some("." + x)
  {
    LeafKeepsEnding(w, "." + x);
    var v :| Leaf(w + ("." + x)) == v + ("." + x);
    ExtensionAtDot(v, x);
  }

  lemma EndingExtension(w: string, ending: string)
    requires ending in ENDINGS
    ensures Extension(Leaf(w + ending)) == Some(ExtensionOf(ending))
  {
    var stem, x := EndingParts(ending);
    Associate(w, stem, "." + x);
    ExtensionIs(w + stem, x);
  }

  lemma EndingParts(ending: string) returns (stem: string, x: string)
    requires ending in ENDINGS
    ensures ending == stem + ("." + x) && ExtensionOf(ending) == "." + x
    ensures x != "" && forall i :: 0 <= i < |x| ==> x[i] != '.' && x[i] != '/'
  {
    if ending in {".h", "_impl.h"} {
      x := "h";
      stem := if ending == ".h" then "" else "_impl";
    } else {
      x := "cc";
      stem := SourceStem(ending);
    }
  }

  lemma SourceStem(ending: string) returns (stem: string)
    requires ending in {".cc", "_test.cc", "_impl.cc", "_impl_test.cc"}
    ensures ending == stem + ("." + "cc")
  {
    stem := if ending == ".cc" then "" else if ending == "_test.cc" then "_test"
            else if ending == "_impl.cc" then "_impl" else "_impl_test";
  }

  // ---------------------------------------------------------------------------
  // What is emitted

  lemma {:induction false} EmittedMeans(f: File, rules: seq<Rule>, files: set<string>, b: string)
    ensures b in Emitted(f, rules, files) <==>
            b in files && exists r :: r in rules && Matches(f, r) && NewPath(f, r) == b
  {
    if rules != [] {
      EmittedMeans(f, rules[1..], files, b);
      assert forall r :: r in rules <==> r == rules[0] || r in rules[1..];
    }
  }

  /** A matching path is the rule's directory, something from a slash on, and the rule's ending. */
  lemma MatchedParts(f: File, r: Rule)
    requires Matches(f, r) && NoSlash(r.sourceEnding)
    ensures var mid := Middle(f, r);
            f.path == r.source + mid + r.sourceEnding && mid != "" && mid[0] == '/'
  {
    var s, n, e := f.absolute + f.path, |r.source|, |r.sourceEnding|;
    assert f.path[n] == '/';
    var k := |f.absolute| + n;
    assert s[k] == '/';
    assert k < |s| - e by {
      assert forall i :: |s| - e <= i < |s| ==> s[i] == r.sourceEnding[i - (|s| - e)];
    }
    assert f.path[..n] == r.source;
    assert f.path[|f.path| - e..] == s[|s| - e..];
  }

  /** The argument that stands for a parsed file. */
  function Denormalized(absolute: string, path: string): string {
    if INTERFACE_SYNTHETIC_ROOT + "/" <= path
    then absolute + INTERFACE_REAL_ROOT + path[|INTERFACE_SYNTHETIC_ROOT|..]
    else absolute + path
  }

  /** The path with its interface directory, if any, is the root of what was split off. */
  lemma DenormalizedDir(absolute: string, dir: string, rest: string)
    requires dir in DIRS && rest != "" && rest[0] == '/'
    ensures Denormalized(absolute, dir + rest) == absolute + Real(dir) + rest
  {
    var path := dir + rest;
    if dir == INTERFACE_SYNTHETIC_ROOT {
      assert path[|dir|..] == rest;
      assert (dir + "/") <= path;
    } else {
      assert path[0] == dir[0] != 'i';
    }
  }

  /** An emitted path, if nothing in front is replaced, is split where it was put together. */
  lemma EmittedSplits(absolute: string, dir: string, rest: string)
    requires EndsWith(absolute, ENVOY_ROOT) && Absent(absolute, REAL_DIR)
    requires dir in DIRS && rest != "" && rest[0] == '/' && NoRoot(dir + rest)
    ensures SplitAtRoot(Synthesized(absolute + Real(dir) + rest)) == Some(Split(absolute, dir + rest))
  {
    if dir == INTERFACE_SYNTHETIC_ROOT {
      var n := |absolute|;
      var u := absolute[..n - 1];
      assert absolute[n - 1] == '/' by { assert absolute[n - 7..][6] == '/'; }
      assert absolute == u + "/" && rest == "/" + rest[1..];
      InterfaceSplits(u, rest[1..]);
      assert absolute + Real(dir) + rest == u + "/" + INTERFACE_REAL_ROOT + "/" + rest[1..];
      assert absolute + (dir + rest) == u + "/" + INTERFACE_SYNTHETIC_ROOT + "/" + rest[1..];
    } else {
      assert absolute + dir + rest == absolute + (dir + rest);
      SynthesizedOrdinary(absolute, dir + rest);
    }
    SplitUnique(absolute, dir + rest);
  }

  lemma InterfaceSplits(u: string, rest: string)
    requires EndsWith(u + "/", ENVOY_ROOT) && Absent(u + "/", REAL_DIR)
    requires NoRoot(INTERFACE_SYNTHETIC_ROOT + ("/" + rest))
    ensures Synthesized(u + "/" + INTERFACE_REAL_ROOT + "/" + rest) == u + "/" + INTERFACE_SYNTHETIC_ROOT + "/" + rest
  {
    DirNames();
    assert INTERFACE_SYNTHETIC_ROOT + ("/" + rest) == INTERFACE_SYNTHETIC_ROOT + "/" + rest;
    SynthesizedInterface(u, rest);
    Regroup(u, INTERFACE_REAL_ROOT, REAL_DIR, rest);
    Regroup(u, INTERFACE_SYNTHETIC_ROOT, SYNTHETIC_DIR, rest);
    Reassociate(u, INTERFACE_REAL_ROOT, rest);
    Reassociate(u, INTERFACE_SYNTHETIC_ROOT, rest);
  }

  lemma Reassociate(u: string, root: string, rest: string)
    ensures u + "/" + (root + "/" + rest) == u + "/" + root + "/" + rest
  {}

  // ---------------------------------------------------------------------------
  // Symmetry

  /** Undoing the parse gives the argument back. */
  ghost predicate Undone(arg: string) {
    var split := SplitAtRoot(Synthesized(arg));
    split.Some? && Denormalized(split.value.absolute, split.value.path) == arg
  }

  /**
   * The interface directory occurs in the argument at most right after the
   * location of the repository, and the synthetic name does not follow there.
   */
  ghost predicate Plain(arg: string) {
    var split := SplitAtRoot(Synthesized(arg));
    && split.Some?
    && var n := |split.value.absolute|;
       && (forall i :: OccursAt(arg, REAL_DIR, i) ==> i == n - 1)
       && !OccursAt(arg, INTERFACE_SYNTHETIC_ROOT + "/", n)
  }

  /** At least three path elements under the repository root. */
  ghost predicate Deep(arg: string) {
    var split := SplitAtRoot(Synthesized(arg));
    split.Some? && Slashes(split.value.path) + 1 >= 3
  }

  lemma ParseParts(arg: string)
    requires Parse(arg).Some?
    ensures var f := Parse(arg).value;
            && SplitAtRoot(Synthesized(arg)) == Some(Split(f.absolute, f.path)) && Deep(arg)
            && Synthesized(arg) == f.absolute + f.path && EndsWith(f.absolute, ENVOY_ROOT) && NoRoot(f.path)
            && Dashed(arg, Synthesized(arg))
  {
    SplitParts(Synthesized(arg));
    NamesDiffer();
    ReplaceAllDashes(arg, REAL_DIR, SYNTHETIC_DIR);
  }

  /** `b` is what rule `r` makes of the parsed file `f`: what follows the location, and why it has no root. */
  ghost predicate Made(f: File, r: Rule, mid: string, b: string) {
    && f.path == r.source + mid + r.sourceEnding && mid != "" && mid[0] == '/'
    && b == f.absolute + r.dest + mid + r.destEnding
    && NoRoot(Synthetic(r.dest) + mid + r.destEnding)
  }

  lemma RelatedIsMade(a: string, files: set<string>, b: string) returns (r: Rule, mid: string)
    requires b in Related(a, files)
    ensures b in files && Parse(a).Some?
    ensures var f := Parse(a).value;
            r in RulesFor(Root(f.path), f.ext) && Known(r) && LeadsBack(r) && Made(f, r, mid, b)
  {
    var f := Parse(a).value;
    var rules := RulesFor(Root(f.path), f.ext);
    EmittedMeans(f, rules, files, b);
    r :| r in rules && Matches(f, r) && NewPath(f, r) == b;
    mid := Middle(f, r);
    RulesLeadBack(Root(f.path), f.ext, r);
    RuleParts(r);
    EndingPlain(r.sourceEnding);
    EndingPlain(r.destEnding);
    MatchedParts(f, r);
    ParseParts(a);
    DirSafe(Synthetic(r.dest));
    MiddleHasNoRoot(r.source, mid, r.sourceEnding, Synthetic(r.dest), r.destEnding);
  }

  lemma MadeRegroups(f: File, r: Rule, mid: string, b: string)
    requires Made(f, r, mid, b) && Real(Synthetic(r.dest)) == r.dest
    ensures var dir, rest := Synthetic(r.dest), mid + r.destEnding;
            && dir + mid + r.destEnding == dir + rest && rest != "" && rest[0] == '/'
            && b == f.absolute + Real(dir) + rest && NoRoot(dir + rest)
  {
    var dir, rest := Synthetic(r.dest), mid + r.destEnding;
    assert dir + mid + r.destEnding == dir + rest;
    assert f.absolute + r.dest + mid + r.destEnding == f.absolute + r.dest + rest;
  }

  /** If the location is kept, an emitted path is split where it was put together. */
  lemma MadeSplits(f: File, r: Rule, mid: string, b: string)
    requires Known(r) && Made(f, r, mid, b) && EndsWith(f.absolute, ENVOY_ROOT) && Absent(f.absolute, REAL_DIR)
    ensures SplitAtRoot(Synthesized(b)) == Some(Split(f.absolute, Synthetic(r.dest) + mid + r.destEnding))
    ensures Undone(b)
  {
    RuleParts(r);
    MadeRegroups(f, r, mid, b);
    RoundTrip(f.absolute, Synthetic(r.dest), mid + r.destEnding);
  }

  lemma RoundTrip(absolute: string, dir: string, rest: string)
    requires EndsWith(absolute, ENVOY_ROOT) && Absent(absolute, REAL_DIR)
    requires dir in DIRS && rest != "" && rest[0] == '/' && NoRoot(dir + rest)
    ensures SplitAtRoot(Synthesized(absolute + Real(dir) + rest)) == Some(Split(absolute, dir + rest))
    ensures Undone(absolute + Real(dir) + rest)
  {
    EmittedSplits(absolute, dir, rest);
    DenormalizedDir(absolute, dir, rest);
  }

  lemma DenormalizedPrefix(absolute: string, path: string)
    ensures absolute <= Denormalized(absolute, path)
  {}

  /** A beginning that is not changed does not hold the interface directory. */
  lemma KeptHasNoInterface(a: string, p: string)
    requires p <= a && p <= Synthesized(a)
    ensures Absent(p, REAL_DIR)
  {
    NamesDiffer();
    ReplaceAllDashes(a, REAL_DIR, SYNTHETIC_DIR);
    UnchangedIsAbsent(a, REAL_DIR, SYNTHETIC_DIR, |p|, 8);
    assert a[..|p|] == p;
  }

  /** The location of an argument whose parse can be undone does not hold the interface directory. */
  lemma UndoneLocation(a: string)
    requires Parse(a).Some? && Undone(a)
    ensures Absent(Parse(a).value.absolute, REAL_DIR)
  {
    ParseParts(a);
    var f := Parse(a).value;
    DenormalizedPrefix(f.absolute, f.path);
    KeptHasNoInterface(a, f.absolute);
  }

  /** What is parsed of an emitted path. */
  lemma ParseOfMade(f: File, r: Rule, mid: string, b: string)
    requires Known(r) && Made(f, r, mid, b) && Deep(b)
    requires EndsWith(f.absolute, ENVOY_ROOT) && Absent(f.absolute, REAL_DIR)
    ensures Parse(b) == Some(File(f.absolute, Synthetic(r.dest) + mid + r.destEnding, ExtensionOf(r.destEnding)))
  {
    MadeSplits(f, r, mid, b);
    RuleParts(r);
    EndingExtension(Synthetic(r.dest) + mid, r.destEnding);
  }

  lemma RootOfMade(f: File, r: Rule, mid: string, b: string)
    requires Known(r) && Made(f, r, mid, b)
    ensures Root(Synthetic(r.dest) + mid + r.destEnding) == TopOf(Synthetic(r.dest))
  {
    RuleParts(r);
    MadeRegroups(f, r, mid, b);
    RootOfDir(Synthetic(r.dest), mid + r.destEnding);
  }

  lemma UndoneIsRegrouped(f: File, r: Rule, mid: string, a: string)
    requires r.source in DIRS && mid != "" && mid[0] == '/' && f.path == r.source + mid + r.sourceEnding
    requires Denormalized(f.absolute, f.path) == a
    ensures a == f.absolute + Real(r.source) + (mid + r.sourceEnding)
  {
    Associate(r.source, mid, r.sourceEnding);
    DenormalizedDir(f.absolute, r.source, mid + r.sourceEnding);
  }

  lemma Associate(x: string, y: string, z: string)
    ensures x + y + z == x + (y + z)
  {}

  /** If the parse can be undone, and far enough from the root, the script leads back. */
  lemma LeadsBackTo(a: string, b: string, files: set<string>, r: Rule, mid: string)
    requires Parse(a).Some? && Undone(a) && a in files && Deep(b)
    requires Known(r) && LeadsBack(r) && Made(Parse(a).value, r, mid, b)
    ensures a in Related(b, files)
  {
    var f := Parse(a).value;
    ParseParts(a);
    UndoneLocation(a);
    ParseOfMade(f, r, mid, b);
    RootOfMade(f, r, mid, b);
    var g := Parse(b).value;
    InverseMakes(f, r, mid, g);
    RuleParts(r);
    UndoneIsRegrouped(f, r, mid, a);
    EmittedMeans(g, RulesFor(Root(g.path), g.ext), files, a);
  }

  lemma InverseMakes(f: File, r: Rule, mid: string, g: File)
    requires mid != "" && mid[0] == '/' && g.absolute == f.absolute && g.path == Synthetic(r.dest) + mid + r.destEnding
    ensures Matches(g, Inverse(r))
    ensures NewPath(g, Inverse(r)) == f.absolute + Real(r.source) + (mid + r.sourceEnding)
  {
    var q := Inverse(r);
    assert q.source + "/" <= g.path by { assert g.path == q.source + (mid + r.destEnding); }
    var s := g.absolute + g.path;
    assert s[|s| - |r.destEnding|..] == r.destEnding;
    assert Middle(g, q) == mid;
  }

  /** Each location being a beginning of the other argument, the shorter one is not changed in either. */
  lemma ShorterIsKept(a: string, b: string, x: string, y: string, p: string, q: string)
    requires Dashed(a, x) && Dashed(b, y) && p <= x && q <= y && p <= b && q <= a
    ensures |p| <= |q| ==> p <= y
    ensures |q| <= |p| ==> q <= x
  {
    forall i | 0 <= i < |p| && i < |q| ensures x[i] == a[i] && y[i] == b[i] {
      assert a[i] == q[i] == y[i] && b[i] == p[i] == x[i];
    }
  }

  lemma MadePrefix(f: File, r: Rule, mid: string, b: string)
    requires Made(f, r, mid, b)
    ensures f.absolute <= b
  {
    assert b == f.absolute + (r.dest + mid + r.destEnding);
  }

  /** Two arguments that lead to each other have the same location, and the parse of the first can be undone. */
  lemma MutualIsUndone(a: string, b: string, r: Rule, mid: string, r': Rule, mid': string)
    requires Parse(a).Some? && Parse(b).Some? && Known(r) && Known(r')
    requires Made(Parse(a).value, r, mid, b) && Made(Parse(b).value, r', mid', a)
    ensures Undone(a)
  {
    var f, g := Parse(a).value, Parse(b).value;
    ParseParts(a);
    ParseParts(b);
    MadePrefix(f, r, mid, b);
    MadePrefix(g, r', mid', a);
    ShorterIsKept(a, b, Synthesized(a), Synthesized(b), f.absolute, g.absolute);
    if |f.absolute| <= |g.absolute| {
      KeptHasNoInterface(b, f.absolute);
      MadeSplits(f, r, mid, b);
    }
    KeptHasNoInterface(a, g.absolute);
    MadeSplits(g, r', mid', a);
  }

  /** An argument with the interface directory nowhere but after `u`, and its parts once replaced. */
  lemma OnlyRealDir(arg: string, u: string, rest: string)
    requires arg == u + REAL_DIR + rest && forall i :: OccursAt(arg, REAL_DIR, i) ==> i == |u|
    ensures Synthesized(arg) == u + SYNTHETIC_DIR + rest
  {
    forall j ensures !OccursAt(rest, REAL_DIR, j) {
      if 0 <= j { OccursInSuffix(u + REAL_DIR, rest, REAL_DIR, j + |u| + 15); }
    }
    ReplaceFirst(u, rest, REAL_DIR, SYNTHETIC_DIR);
    ReplaceNone(rest, REAL_DIR, SYNTHETIC_DIR);
  }

  lemma PlainIsUndone(arg: string)
    requires Plain(arg)
    ensures Undone(arg)
  {
    var split := SplitAtRoot(Synthesized(arg)).value;
    var n := |split.absolute|;
    SplitParts(Synthesized(arg));
    if OccursAt(arg, REAL_DIR, n - 1) {
      PlainInterface(arg, split.absolute, split.path);
    } else {
      assert Absent(arg, REAL_DIR);
      ReplaceNone(arg, REAL_DIR, SYNTHETIC_DIR);
      ContinuesWith(split.absolute, split.path, INTERFACE_SYNTHETIC_ROOT + "/");
    }
  }

  lemma PlainInterface(arg: string, absolute: string, path: string)
    requires Synthesized(arg) == absolute + path && OccursAt(arg, REAL_DIR, |absolute| - 1)
    requires forall i :: OccursAt(arg, REAL_DIR, i) ==> i == |absolute| - 1
    ensures Denormalized(absolute, path) == arg
  {
    var n := |absolute|;
    var u, rest := arg[..n - 1], arg[n + 14..];
    assert arg == u + REAL_DIR + rest;
    OnlyRealDir(arg, u, rest);
    DirNames();
    Regroup(u, INTERFACE_SYNTHETIC_ROOT, SYNTHETIC_DIR, rest);
    Regroup(u, INTERFACE_REAL_ROOT, REAL_DIR, rest);
    SamePrefix(u + "/", INTERFACE_SYNTHETIC_ROOT + "/" + rest, absolute, path);
    DenormalizedInterface(absolute, rest);
  }

  lemma SamePrefix(x: string, y: string, x': string, y': string)
    requires x + y == x' + y' && |x| == |x'|
    ensures x == x' && y == y'
  {
    assert x == (x + y)[..|x|] && y == (x + y)[|x|..];
    assert x' == (x' + y')[..|x|] && y' == (x' + y')[|x|..];
  }

  lemma DenormalizedInterface(absolute: string, rest: string)
    ensures Denormalized(absolute, INTERFACE_SYNTHETIC_ROOT + "/" + rest) ==
            absolute + (INTERFACE_REAL_ROOT + "/" + rest)
  {
    var path := INTERFACE_SYNTHETIC_ROOT + "/" + rest;
    assert path[|INTERFACE_SYNTHETIC_ROOT|..] == "/" + rest;
  }

  lemma ContinuesWith(absolute: string, path: string, key: string)
    ensures OccursAt(absolute + path, key, |absolute|) <==> key <= path
  {
    OccursInSuffix(absolute, path, key, |absolute|);
    OccursAtStart(path, key);
  }

  lemma UndoneIsPlain(arg: string)
    requires Undone(arg)
    ensures Plain(arg)
  {
    var split := SplitAtRoot(Synthesized(arg)).value;
    SplitParts(Synthesized(arg));
    if INTERFACE_SYNTHETIC_ROOT + "/" <= split.path {
      var rest := split.path[14..];
      assert split.path == INTERFACE_SYNTHETIC_ROOT + "/" + rest;
      DenormalizedInterface(split.absolute, rest);
      UndoneInterface(arg, split.absolute, rest);
    } else {
      KeptHasNoInterface(arg, arg);
      ContinuesWith(split.absolute, split.path, INTERFACE_SYNTHETIC_ROOT + "/");
    }
  }

  lemma UndoneInterface(arg: string, absolute: string, rest: string)
    requires EndsWith(absolute, ENVOY_ROOT) && NoRoot(INTERFACE_SYNTHETIC_ROOT + "/" + rest)
    requires Synthesized(arg) == absolute + (INTERFACE_SYNTHETIC_ROOT + "/" + rest)
    requires arg == absolute + (INTERFACE_REAL_ROOT + "/" + rest)
    ensures forall i :: OccursAt(arg, REAL_DIR, i) ==> i == |absolute| - 1
    ensures !OccursAt(arg, INTERFACE_SYNTHETIC_ROOT + "/", |absolute|)
  {
    KeptHasNoInterface(arg, absolute);
    forall i | OccursAt(arg, REAL_DIR, i) ensures i == |absolute| - 1 {
      if i < |absolute| - 1 {
        NoEarlierRealDir(absolute, INTERFACE_REAL_ROOT + "/" + rest, i);
      } else if i > |absolute| - 1 {
        NoLaterRealDir(absolute, rest, i);
      }
    }
    ContinuesWith(absolute, INTERFACE_REAL_ROOT + "/" + rest, INTERFACE_SYNTHETIC_ROOT + "/");
    assert (INTERFACE_REAL_ROOT + "/" + rest)[7] == '/' && (INTERFACE_SYNTHETIC_ROOT + "/")[7] == '-';
  }

  lemma NotInsideRealRoot(absolute: string, tail: string, i: int)
    requires |absolute| <= i < |absolute| + 13
    ensures !OccursAt(absolute + INTERFACE_REAL_ROOT + tail, REAL_DIR, i)
  {
    var s := absolute + INTERFACE_REAL_ROOT + tail;
    if OccursAt(s, REAL_DIR, i) {
      RealDirChars(s, i, 0);
      RealDirChars(s, i, 1);
      assert false;
    }
  }

  /** After the interface directory of an argument there is no other one. */
  lemma NoLaterRealDir(absolute: string, rest: string, i: int)
    requires NoRoot(INTERFACE_SYNTHETIC_ROOT + "/" + rest) && i >= |absolute|
    ensures !OccursAt(absolute + (INTERFACE_REAL_ROOT + "/" + rest), REAL_DIR, i)
  {
    var v, tail := absolute + INTERFACE_REAL_ROOT, "/" + rest;
    assert absolute + (INTERFACE_REAL_ROOT + "/" + rest) == v + tail;
    if i < |v| {
      NotInsideRealRoot(absolute, tail, i);
    } else if OccursAt(v + tail, REAL_DIR, i) {
      RealDirHasRoot(v + tail, i);
      OccursInSuffix(v, tail, ENVOY_ROOT, i + 8);
      var w := "/" + INTERFACE_SYNTHETIC_ROOT;
      assert "/" + (INTERFACE_SYNTHETIC_ROOT + "/" + rest) == w + tail;
      OccursInSuffix(w, tail, ENVOY_ROOT, i + 8 - |v| + |w|);
      assert false;
    }
  }

  /** An argument is plain exactly if its parse can be undone. */
  lemma PlainIffUndone(arg: string)
    ensures Plain(arg) <==> Undone(arg)
  {
    if Plain(arg) { PlainIsUndone(arg); }
    if Undone(arg) { UndoneIsPlain(arg); }
  }

  /**
   * If the script emits `b` for `a`, then it emits `a` for `b` exactly when `a`
   * exists, `b` has at least three path elements, and `a` is plain.
   */
  lemma SymmetricIff(a: string, b: string, files: set<string>)
    requires b in Related(a, files)
    ensures a in Related(b, files) <==> a in files && Deep(b) && Plain(a)
  {
    PlainIffUndone(a);
    var r, mid := RelatedIsMade(a, files, b);
    if a in Related(b, files) {
      var r', mid' := RelatedIsMade(b, files, a);
      ParseParts(b);
      MutualIsUndone(a, b, r, mid, r', mid');
    }
    if a in files && Deep(b) && Undone(a) {
      LeadsBackTo(a, b, files, r, mid);
    }
  }

  // ---------------------------------------------------------------------------
  // Where there is no way back

  lemma {:induction false} SlashesAppend(u: string, v: string)
    ensures Slashes(u + v) == Slashes(u) + Slashes(v)
  {
    if u == "" {
      assert u + v == v;
    } else {
      SlashesAppend(u[1..], v);
      assert (u + v)[1..] == u[1..] + v;
    }
  }

  lemma {:induction false} SlashesNone(s: string)
    requires NoSlash(s)
    ensures Slashes(s) == 0
  {
    if s != "" {
      SlashesNone(s[1..]);
    }
  }

  lemma SlashesNested(top: string, y: string)
    requires NoSlash(top) && NoSlash(y)
    ensures Slashes(top + ("/" + y)) == 1
  {
    SlashesAppend(top, "/" + y);
    SlashesAppend("/", y);
    SlashesNone(top);
    SlashesNone(y);
  }

  lemma SlashesOfDir(dir: string)
    requires dir in DIRS
    ensures Slashes(dir) == if dir == TopOf(dir) then 0 else 1
  {
    DirShape(dir);
    if dir == TopOf(dir) {
      SlashesNone(dir);
    } else {
      var y :| NoSlash(y) && dir == TopOf(dir) + ("/" + y);
      SlashesNested(TopOf(dir), y);
    }
  }

  lemma SlashesUnderDir(dir: string, y: string)
    requires dir in DIRS && NoSlash(y)
    ensures Slashes(dir + ("/" + y)) == if dir == TopOf(dir) then 1 else 2
  {
    SlashesOfDir(dir);
    SlashesAppend(dir, "/" + y);
    SlashesAppend("/", y);
    SlashesNone(y);
  }

  lemma NoRootUnderDir(dir: string, y: string)
    requires dir in DIRS && NoSlash(y)
    ensures NoRoot(dir + ("/" + y))
  {
    DirSafe(dir);
    var t := "/" + (dir + ("/" + y));
    assert t == "/" + dir + ("/" + y);
    forall i ensures !OccursAt(t, ENVOY_ROOT, i) {
      if OccursAt(t, ENVOY_ROOT, i) {
        RootChars(t, i);
        if i <= |dir| { NoRootInSafe(dir, "/" + y, i); }
      }
    }
  }

  /** What is parsed of a file right under one of the directories. */
  lemma ParseUnderDir(absolute: string, dir: string, stem: string, ending: string)
    requires EndsWith(absolute, ENVOY_ROOT) && Absent(absolute, REAL_DIR)
    requires dir in DIRS && ending in ENDINGS && NoSlash(stem)
    ensures var rest := "/" + (stem + ending);
            Parse(absolute + Real(dir) + rest) ==
            if dir == TopOf(dir) then None else Some(File(absolute, dir + rest, ExtensionOf(ending)))
  {
    var rest := "/" + (stem + ending);
    EndingPlain(ending);
    NoRootUnderDir(dir, stem + ending);
    EmittedSplits(absolute, dir, rest);
    SlashesUnderDir(dir, stem + ending);
    ExtensionUnderDir(dir, stem, ending);
  }

  lemma ExtensionUnderDir(dir: string, stem: string, ending: string)
    requires ending in ENDINGS
    ensures Extension(Leaf(dir + ("/" + (stem + ending)))) == Some(ExtensionOf(ending))
  {
    Associate("/", stem, ending);
    Associate(dir, "/" + stem, ending);
    EndingExtension(dir + ("/" + stem), ending);
  }

  lemma MatchesUnderDir(absolute: string, dir: string, stem: string, r: Rule)
    requires r.source == dir
    ensures var f := File(absolute, dir + ("/" + (stem + r.sourceEnding)), "");
            Matches(f, r) && Middle(f, r) == "/" + stem
  {
    var f := File(absolute, dir + ("/" + (stem + r.sourceEnding)), "");
    var s := f.absolute + f.path;
    assert s[|s| - |r.sourceEnding|..] == r.sourceEnding;
  }

  /**
   * The test of an interface that lies right under its directory leads to the
   * interface, which leads nowhere: its path has two elements only.
   */
  lemma ShallowInterfaceIsOneWay(absolute: string, stem: string)
    requires EndsWith(absolute, ENVOY_ROOT) && Absent(absolute, REAL_DIR) && NoSlash(stem)
    ensures var a := absolute + "test/common" + ("/" + (stem + "_impl_test.cc"));
            var b := absolute + INTERFACE_REAL_ROOT + ("/" + (stem + ".h"));
            b in Related(a, {a, b}) && a !in Related(b, {a, b})
  {
    var r := TEST_RULES[0];
    var a := absolute + r.source + ("/" + (stem + r.sourceEnding));
    var b := absolute + r.dest + ("/" + (stem + r.destEnding));
    ParseUnderDir(absolute, r.source, stem, r.sourceEnding);
    ParseUnderDir(absolute, INTERFACE_SYNTHETIC_ROOT, stem, r.destEnding);
    RootOfDir(r.source, "/" + (stem + r.sourceEnding));
    MatchesUnderDir(absolute, r.source, stem, r);
    var f := Parse(a).value;
    assert Middle(f, r) == "/" + stem && Matches(f, r);
    assert NewPath(f, r) == b;
    EmittedMeans(f, TEST_RULES, {a, b}, b);
  }

  /** A path without a root, after a location without the interface directory, is parsed as it is. */
  lemma ParseOrdinary(absolute: string, path: string, ext: string)
    requires EndsWith(absolute, ENVOY_ROOT) && Absent(absolute, REAL_DIR) && NoRoot(path)
    requires Slashes(path) >= 2 && Extension(Leaf(path)) == Some(ext)
    ensures SplitAtRoot(Synthesized(absolute + path)) == Some(Split(absolute, path))
    ensures Parse(absolute + path) == Some(File(absolute, path, ext))
  {
    SynthesizedOrdinary(absolute, path);
    SplitUnique(absolute, path);
  }

  lemma PathInDir(dir: string, mid: string, ending: string)
    requires dir in DIRS && ending in ENDINGS && mid != "" && mid[0] == '/'
    ensures var path := dir + mid + ending;
            && Slashes(path) >= Slashes(mid) && Root(path) == TopOf(dir)
            && Extension(Leaf(path)) == Some(ExtensionOf(ending)) && dir + "/" <= path
  {
    SlashesAppend(dir + mid, ending);
    SlashesAppend(dir, mid);
    EndingExtension(dir + mid, ending);
    Associate(dir, mid, ending);
    RootOfDir(dir, mid + ending);
    StartsWithDir(dir, mid + ending);
  }

  lemma StartsWithDir(dir: string, rest: string)
    requires rest != "" && rest[0] == '/'
    ensures dir + "/" <= dir + rest
  {}

  lemma SyntheticIsNotPlain(absolute: string, path: string)
    requires SplitAtRoot(Synthesized(absolute + path)) == Some(Split(absolute, path))
    requires INTERFACE_SYNTHETIC_ROOT + "/" <= path
    ensures !Plain(absolute + path)
  {
    ContinuesWith(absolute, path, INTERFACE_SYNTHETIC_ROOT + "/");
  }

  lemma ParseAsGiven(absolute: string, mid: string)
    requires EndsWith(absolute, ENVOY_ROOT) && Absent(absolute, REAL_DIR)
    requires mid != "" && mid[0] == '/' && Slashes(mid) >= 2 && NoRoot(INTERFACE_SYNTHETIC_ROOT + mid + ".h")
    ensures var path := INTERFACE_SYNTHETIC_ROOT + mid + ".h";
            && Parse(absolute + path) == Some(File(absolute, path, ".h")) && !Plain(absolute + path)
            && Root(path) == INTERFACE_SYNTHETIC_ROOT
  {
    var path := INTERFACE_SYNTHETIC_ROOT + mid + ".h";
    PathInDir(INTERFACE_SYNTHETIC_ROOT, mid, ".h");
    ParseOrdinary(absolute, path, ".h");
    SyntheticIsNotPlain(absolute, path);
  }

  lemma DeepUnderSource(absolute: string, mid: string)
    requires EndsWith(absolute, ENVOY_ROOT) && Absent(absolute, REAL_DIR)
    requires mid != "" && mid[0] == '/' && Slashes(mid) >= 2 && NoRoot(INTERFACE_SYNTHETIC_ROOT + mid + ".h")
    ensures Deep(absolute + "source/common" + (mid + "_impl.cc"))
  {
    var dir, rest := "source/common", mid + "_impl.cc";
    EndingPlain("_impl.cc");
    DirSafe(dir);
    MiddleHasNoRoot(INTERFACE_SYNTHETIC_ROOT, mid, ".h", dir, "_impl.cc");
    Associate(dir, mid, "_impl.cc");
    EmittedSplits(absolute, dir, rest);
    SlashesAppend(dir, rest);
    SlashesAppend(mid, "_impl.cc");
  }

  /**
   * An interface given by its synthetic name leads to its implementation, which
   * leads to the real name only: all files exist and are deep enough, and only
   * being plain is missing.
   */
  lemma SyntheticNameIsOneWay(absolute: string, mid: string)
    requires EndsWith(absolute, ENVOY_ROOT) && Absent(absolute, REAL_DIR)
    requires mid != "" && mid[0] == '/' && Slashes(mid) >= 2 && NoRoot(INTERFACE_SYNTHETIC_ROOT + mid + ".h")
    ensures var a := absolute + (INTERFACE_SYNTHETIC_ROOT + mid + ".h");
            var b := absolute + "source/common" + (mid + "_impl.cc");
            && b in Related(a, {a, b}) && Deep(a) && Deep(b) && !Plain(a)
            && a !in Related(b, {a, b})
  {
    var r := INTERFACE_RULES[0];
    var a := absolute + (INTERFACE_SYNTHETIC_ROOT + mid + ".h");
    var b := absolute + "source/common" + (mid + "_impl.cc");
    ParseAsGiven(absolute, mid);
    ParseParts(a);
    DeepUnderSource(absolute, mid);
    var f := Parse(a).value;
    MatchesMiddle(f, r, mid);
    Associate(absolute + r.dest, mid, r.destEnding);
    EmittedMeans(f, INTERFACE_RULES, {a, b}, b);
    SymmetricIff(a, b, {a, b});
  }

  lemma MatchesMiddle(f: File, r: Rule, mid: string)
    requires f.path == r.source + mid + r.sourceEnding && mid != "" && mid[0] == '/'
    ensures Matches(f, r) && Middle(f, r) == mid
  {
    var s := f.absolute + f.path;
    assert s[|s| - |r.sourceEnding|..] == r.sourceEnding;
    assert r.source + "/" <= f.path by { assert f.path == r.source + (mid + r.sourceEnding); }
  }
}
