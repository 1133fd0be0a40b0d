/**
 * find_related_envoy_files.py: from the path of a source, test or interface
 * file to the paths of the files related to it.
 */
module RelatedFiles {
  import opened Options
  import opened Text

  const ENVOY_ROOT := "/envoy/"
  const SOURCE_ROOT := "source"
  const TEST_ROOT := "test"
  const INTERFACE_REAL_ROOT := "include/envoy"
  const INTERFACE_SYNTHETIC_ROOT := "include-envoy"
  const REAL_DIR := "/include/envoy/"
  const SYNTHETIC_DIR := "/include-envoy/"

  /** str.replace: every occurrence, found from left to right. */
  function ReplaceAll(s: string, from: string, to: string): string
    requires from != ""
  {
    if s == "" then ""
    else if from <= s then to + ReplaceAll(s[|from|..], from, to)
    else [s[0]] + ReplaceAll(s[1..], from, to)
  }

  /** The argument with the synthetic name of the interface directory. */
  function Synthesized(arg: string): string {
    ReplaceAll(arg, REAL_DIR, SYNTHETIC_DIR)
  }

  /** str.rfind, looking from position `from` down; -1 when there is none. */
  function RFind(s: string, key: string, from: int): (i: int)
    ensures i == -1 || (0 <= i <= from && OccursAt(s, key, i))
    ensures forall j :: i < j <= from ==> !OccursAt(s, key, j)
    decreases from
  {
    if from < 0 then -1 else if OccursAt(s, key, from) then from else RFind(s, key, from - 1)
  }

  /** The location of the repository and the path inside it. */
  datatype Split = Split(absolute: string, path: string)

  function SplitAtRoot(fname: string): Option<Split> {
    var i := RFind(fname, ENVOY_ROOT, |fname|);
    if i == -1 then None
    else Some(Split(fname[..i + |ENVOY_ROOT|], fname[i + |ENVOY_ROOT|..]))
  }

  function Slashes(path: string): nat {
    if path == "" then 0 else (if path[0] == '/' then 1 else 0) + Slashes(path[1..])
  }

  /** The first element of a path. */
  function Root(path: string): string {
    if path == "" || path[0] == '/' then "" else [path[0]] + Root(path[1..])
  }

  /** The last element of a path. */
  function Leaf(path: string): string {
    path[RFind(path, "/", |path|) + 1..]
  }

  /** The extension of a leaf with its dot; None when there is no dot, or only a last one. */
  function Extension(leaf: string): Option<string> {
    var dot := RFind(leaf, ".", |leaf|);
    if dot == -1 || dot == |leaf| - 1 then None else Some(leaf[dot..])
  }

  datatype File = File(absolute: string, path: string, ext: string)

  /** The steps before the dispatch; None where the script exits without output. */
  function Parse(arg: string): Option<File> {
    var split := SplitAtRoot(Synthesized(arg));
    if split.None? then None else
    var path := split.value.path;
    if Slashes(path) + 1 < 3 then None else
    var ext := Extension(Leaf(path));
    if ext.None? then None else Some(File(split.value.absolute, path, ext.value))
  }

  /** One call of emit. */
  datatype Rule = Rule(source: string, dest: string, sourceEnding: string, destEnding: string)

  const TEST_RULES := [
    Rule("test/common", INTERFACE_REAL_ROOT, "_impl_test.cc", ".h"),
    Rule(TEST_ROOT, SOURCE_ROOT, "_test.cc", ".cc"),
    Rule(TEST_ROOT, SOURCE_ROOT, "_test.cc", ".h"),
    Rule(TEST_ROOT, TEST_ROOT, ".cc", ".h"),
    Rule(TEST_ROOT, TEST_ROOT, ".cc", "_test.cc"),
    Rule(TEST_ROOT, TEST_ROOT, ".h", "_test.cc"),
    Rule(TEST_ROOT, TEST_ROOT, ".h", ".cc"),
    Rule(TEST_ROOT, TEST_ROOT, "_test.cc", ".cc"),
    Rule(TEST_ROOT, TEST_ROOT, "_test.cc", ".h")]

  const SOURCE_RULES := [
    Rule(SOURCE_ROOT, SOURCE_ROOT, ".cc", ".h"),
    Rule(SOURCE_ROOT, TEST_ROOT, ".cc", "_test.cc"),
    Rule("source/common", INTERFACE_REAL_ROOT, "_impl.cc", ".h")]

  const HEADER_RULES := [
    Rule(SOURCE_ROOT, TEST_ROOT, ".h", "_test.cc"),
    Rule("source/common", INTERFACE_REAL_ROOT, "_impl.h", ".h"),
    Rule(SOURCE_ROOT, SOURCE_ROOT, ".h", ".cc")]

  const INTERFACE_RULES := [
    Rule(INTERFACE_SYNTHETIC_ROOT, "source/common", ".h", "_impl.cc"),
    Rule(INTERFACE_SYNTHETIC_ROOT, "source/common", ".h", "_impl.h"),
    Rule(INTERFACE_SYNTHETIC_ROOT, "test/common", ".h", "_impl_test.cc")]

  /** The dispatch on root and extension. */
  function RulesFor(root: string, ext: string): seq<Rule> {
    if root == TEST_ROOT then TEST_RULES
    else if root == SOURCE_ROOT && ext == ".cc" then SOURCE_RULES
    else if root == SOURCE_ROOT && ext == ".h" then HEADER_RULES
    else if root == INTERFACE_SYNTHETIC_ROOT then INTERFACE_RULES
    else []
  }

  predicate EndsWith(s: string, ending: string) {
    |ending| <= |s| && s[|s| - |ending|..] == ending
  }

  predicate Matches(f: File, r: Rule) {
    EndsWith(f.absolute + f.path, r.sourceEnding) && r.source + "/" <= f.path
  }

  /** path[len(source):-len(ending)] */
  function Middle(f: File, r: Rule): string {
    if |r.source| <= |f.path| - |r.sourceEnding| then f.path[|r.source|..|f.path| - |r.sourceEnding|] else ""
  }

  function NewPath(f: File, r: Rule): string {
    f.absolute + r.dest + Middle(f, r) + r.destEnding
  }

  function Emitted(f: File, rules: seq<Rule>, files: set<string>): seq<string> {
    if rules == [] then []
    else
      var rest := Emitted(f, rules[1..], files);
      if Matches(f, rules[0]) && NewPath(f, rules[0]) in files then [NewPath(f, rules[0])] + rest else rest
  }

  /** What the script prints, with `files` the files that exist. */
  function Related(arg: string, files: set<string>): seq<string> {
    var f := Parse(arg);
    if f.None? then [] else Emitted(f.value, RulesFor(Root(f.value.path), f.value.ext), files)
  }
}
