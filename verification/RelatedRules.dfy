/** Exactly which files the script leads to, in the text of the paths. */
module RelatedRules {
  import opened Options
  import opened Text
  import opened RelatedFiles
  import opened RelatedPaths
  import opened RelatedSymmetry

  // ---------------------------------------------------------------------------
  // The lines of the script

  ghost predicate TestLine(r: Rule) {
    || r == Rule("test/common", "include/envoy", "_impl_test.cc", ".h")
    || r == Rule("test", "source", "_test.cc", ".cc")
    || r == Rule("test", "source", "_test.cc", ".h")
    || r == Rule("test", "test", ".cc", ".h")
    || r == Rule("test", "test", ".cc", "_test.cc")
    || r == Rule("test", "test", ".h", "_test.cc")
    || r == Rule("test", "test", ".h", ".cc")
    || r == Rule("test", "test", "_test.cc", ".cc")
    || r == Rule("test", "test", "_test.cc", ".h")
  }

  ghost predicate SourceLine(r: Rule) {
    || r == Rule("source", "source", ".cc", ".h")
    || r == Rule("source", "test", ".cc", "_test.cc")
    || r == Rule("source/common", "include/envoy", "_impl.cc", ".h")
  }

  ghost predicate HeaderLine(r: Rule) {
    || r == Rule("source", "test", ".h", "_test.cc")
    || r == Rule("source/common", "include/envoy", "_impl.h", ".h")
    || r == Rule("source", "source", ".h", ".cc")
  }

  ghost predicate InterfaceLine(r: Rule) {
    || r == Rule("include-envoy", "source/common", ".h", "_impl.cc")
    || r == Rule("include-envoy", "source/common", ".h", "_impl.h")
    || r == Rule("include-envoy", "test/common", ".h", "_impl_test.cc")
  }

  ghost predicate Line(r: Rule) {
    TestLine(r) || SourceLine(r) || HeaderLine(r) || InterfaceLine(r)
  }

  lemma MembersOfThree(rules: seq<Rule>, r: Rule)
    requires |rules| == 3
    ensures r in rules <==> r == rules[0] || r == rules[1] || r == rules[2]
  {}

  lemma MembersOfNine(rules: seq<Rule>, r: Rule)
    requires |rules| == 9
    ensures r in rules <==> r in rules[..3] || r in rules[3..6] || r in rules[6..]
  {
    assert rules == rules[..3] + rules[3..6] + rules[6..];
  }

  lemma TestRulesAre(r: Rule)
    ensures r in TEST_RULES <==> TestLine(r)
  {
    MembersOfNine(TEST_RULES, r);
    MembersOfThree(TEST_RULES[..3], r);
    MembersOfThree(TEST_RULES[3..6], r);
    MembersOfThree(TEST_RULES[6..], r);
  }

  lemma OtherRulesAre(r: Rule)
    ensures r in SOURCE_RULES <==> SourceLine(r)
    ensures r in HEADER_RULES <==> HeaderLine(r)
    ensures r in INTERFACE_RULES <==> InterfaceLine(r)
  {
    MembersOfThree(SOURCE_RULES, r);
    MembersOfThree(HEADER_RULES, r);
    MembersOfThree(INTERFACE_RULES, r);
  }

  lemma LinesAreKnown(r: Rule)
    ensures Line(r) <==> Known(r)
  {
    TestRulesAre(r);
    OtherRulesAre(r);
  }

  /** The dispatch on root and extension lets every line see the files that it is for. */
  lemma LineIsReached(r: Rule)
    requires Line(r)
    ensures r in RulesFor(TopOf(r.source), ExtensionOf(r.sourceEnding))
  {
    TestRulesAre(r);
    OtherRulesAre(r);
    if TestLine(r) {
      assert TopOf(r.source) == TEST_ROOT;
    } else if SourceLine(r) {
      assert TopOf(r.source) == SOURCE_ROOT && ExtensionOf(r.sourceEnding) == ".cc";
    } else if HeaderLine(r) {
      assert TopOf(r.source) == SOURCE_ROOT && ExtensionOf(r.sourceEnding) == ".h";
    } else {
      assert TopOf(r.source) == INTERFACE_SYNTHETIC_ROOT;
    }
  }

  // ---------------------------------------------------------------------------
  // What is emitted

  /** The path is what line `r` reads, with `mid` between directory and ending, and `b` is what it makes of it. */
  ghost predicate Leads(absolute: string, path: string, r: Rule, mid: string, b: string) {
    && mid != "" && mid[0] == '/'
    && path == r.source + mid + r.sourceEnding
    && b == absolute + r.dest + mid + r.destEnding
  }

  lemma LineEmits(f: File, r: Rule, mid: string, b: string, files: set<string>)
    requires Line(r) && Leads(f.absolute, f.path, r, mid, b) && b in files && Extension(Leaf(f.path)) == Some(f.ext)
    ensures b in Emitted(f, RulesFor(Root(f.path), f.ext), files)
  {
    LinesAreKnown(r);
    RuleParts(r);
    LineIsReached(r);
    PathInDir(r.source, mid, r.sourceEnding);
    MatchesMiddle(f, r, mid);
    EmittedMeans(f, RulesFor(Root(f.path), f.ext), files, b);
  }

  /** Emitted are exactly the existing files to which a line of the script leads from the path. */
  lemma EmitsExactly(a: string, files: set<string>, b: string)
    ensures b in Related(a, files) <==>
            && Parse(a).Some? && b in files
            && exists r, mid :: Line(r) && Leads(Parse(a).value.absolute, Parse(a).value.path, r, mid, b)
  {
    if b in Related(a, files) {
      var r, mid := RelatedIsMade(a, files, b);
      LinesAreKnown(r);
      assert Leads(Parse(a).value.absolute, Parse(a).value.path, r, mid, b);
    }
    if Parse(a).Some? && b in files {
      var f := Parse(a).value;
      forall r, mid | Line(r) && Leads(f.absolute, f.path, r, mid, b) ensures b in Related(a, files) {
        LineEmits(f, r, mid, b, files);
      }
    }
  }

  /** The lines stand in this order in the script. */
  lemma LinesInOrder()
    ensures TEST_RULES == [
              Rule("test/common", "include/envoy", "_impl_test.cc", ".h"),
              Rule("test", "source", "_test.cc", ".cc"), Rule("test", "source", "_test.cc", ".h"),
              Rule("test", "test", ".cc", ".h"), Rule("test", "test", ".cc", "_test.cc"),
              Rule("test", "test", ".h", "_test.cc"), Rule("test", "test", ".h", ".cc"),
              Rule("test", "test", "_test.cc", ".cc"), Rule("test", "test", "_test.cc", ".h")]
    ensures SOURCE_RULES == [
              Rule("source", "source", ".cc", ".h"), Rule("source", "test", ".cc", "_test.cc"),
              Rule("source/common", "include/envoy", "_impl.cc", ".h")]
    ensures HEADER_RULES == [
              Rule("source", "test", ".h", "_test.cc"), Rule("source/common", "include/envoy", "_impl.h", ".h"),
              Rule("source", "source", ".h", ".cc")]
    ensures INTERFACE_RULES == [
              Rule("include-envoy", "source/common", ".h", "_impl.cc"),
              Rule("include-envoy", "source/common", ".h", "_impl.h"),
              Rule("include-envoy", "test/common", ".h", "_impl_test.cc")]
  {}

  /** What is emitted keeps the order of the lines, each of which emits at most one path. */
  lemma {:induction false} EmittedInOrder(f: File, before: seq<Rule>, r: Rule, after: seq<Rule>, files: set<string>)
    ensures Emitted(f, before + [r] + after, files) ==
            Emitted(f, before, files) +
            (if Matches(f, r) && NewPath(f, r) in files then [NewPath(f, r)] else []) + Emitted(f, after, files)
    decreases before
  {
    var rules := before + [r] + after;
    if before == [] {
      assert rules[1..] == after;
    } else {
      assert rules[1..] == before[1..] + [r] + after;
      EmittedInOrder(f, before[1..], r, after, files);
    }
  }

  /** The directory as it is written in an argument. */
  function Written(dir: string): string {
    if dir == "include-envoy" then "include/envoy" else dir
  }

  lemma WrittenIsReal(dir: string)
    ensures Written(dir) == Real(dir)
  {}

  /** What the script sees of an argument in one of its directories, three elements deep. */
  lemma ParsedInDir(u: string, dir: string, mid: string, ending: string)
    requires dir in DIRS && ending in ENDINGS && mid != "" && mid[0] == '/'
    requires Absent(u + "/envoy/", "/include/envoy/") && Absent("/" + (dir + mid + ending), "/envoy/")
    requires Slashes(dir + mid + ending) >= 2
    ensures Parse(u + "/envoy/" + Written(dir) + (mid + ending)) ==
            Some(File(u + "/envoy/", dir + mid + ending, ExtensionOf(ending)))
  {
    var absolute := u + "/envoy/";
    assert EndsWith(absolute, ENVOY_ROOT);
    WrittenIsReal(dir);
    Associate(dir, mid, ending);
    EmittedSplits(absolute, dir, mid + ending);
    EndingExtension(dir + mid, ending);
  }

  /**
   * Every line of the script leads, in every repository and for every file that
   * is deep enough, from the file it reads to the file it names, if that exists.
   */
  lemma LineLeads(u: string, r: Rule, mid: string, files: set<string>)
    requires Line(r) && mid != "" && mid[0] == '/'
    requires Absent(u + "/envoy/", "/include/envoy/") && Absent("/" + (r.source + mid + r.sourceEnding), "/envoy/")
    requires Slashes(r.source + mid + r.sourceEnding) >= 2
    ensures var a := u + "/envoy/" + Written(r.source) + (mid + r.sourceEnding);
            var b := u + "/envoy/" + r.dest + mid + r.destEnding;
            b in files ==> b in Related(a, files)
  {
    var a := u + "/envoy/" + Written(r.source) + (mid + r.sourceEnding);
    var b := u + "/envoy/" + r.dest + mid + r.destEnding;
    LinesAreKnown(r);
    RuleParts(r);
    ParsedInDir(u, r.source, mid, r.sourceEnding);
    assert Leads(u + "/envoy/", r.source + mid + r.sourceEnding, r, mid, b);
    EmitsExactly(a, files, b);
  }
}
