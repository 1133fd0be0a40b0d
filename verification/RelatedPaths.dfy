/** How the repository root and the interface directory are found in a path. */
module RelatedPaths {
  import opened Options
  import opened Text
  import opened RelatedFiles

  // ---------------------------------------------------------------------------
  // Replacing

  ghost predicate Absent(s: string, key: string) {
    forall i :: !OccursAt(s, key, i)
  }

  /** `t` is `s` with some slashes turned into dashes. */
  ghost predicate Dashed(s: string, t: string) {
    |t| == |s| && forall i :: 0 <= i < |s| ==> t[i] == s[i] || (t[i] == '-' && s[i] == '/')
  }

  lemma DashedAppend(s: string, t: string, s': string, t': string)
    requires Dashed(s, t) && Dashed(s', t')
    ensures Dashed(s + s', t + t')
  {}

  lemma {:induction false} ReplaceAllDashes(s: string, from: string, to: string)
    requires from != "" && Dashed(from, to)
    ensures Dashed(s, ReplaceAll(s, from, to))
  {
    if s != "" {
      if from <= s {
        ReplaceAllDashes(s[|from|..], from, to);
        DashedAppend(from, to, s[|from|..], ReplaceAll(s[|from|..], from, to));
        assert s == from + s[|from|..];
      } else {
        ReplaceAllDashes(s[1..], from, to);
        DashedAppend([s[0]], [s[0]], s[1..], ReplaceAll(s[1..], from, to));
        assert s == [s[0]] + s[1..];
      }
    }
  }

  lemma OccursAtStart(s: string, key: string)
    ensures OccursAt(s, key, 0) <==> key <= s
  {
    if key <= s { assert s[0..0 + |key|] == key; }
  }

  /** The first occurrence is always replaced. */
  lemma {:induction false} ReplaceFirst(u: string, v: string, from: string, to: string)
    requires from != "" && forall j :: 0 <= j < |u| ==> !OccursAt(u + from + v, from, j)
    ensures ReplaceAll(u + from + v, from, to) == u + to + ReplaceAll(v, from, to)
    decreases u
  {
    var s := u + from + v;
    OccursAtStart(s, from);
    if u == "" {
      assert s[|from|..] == v;
    } else {
      var s1 := u[1..] + from + v;
      assert s == [u[0]] + s1;
      forall j | 0 <= j < |u| - 1 ensures !OccursAt(s1, from, j) {
        OccursInSuffix([u[0]], s1, from, j + 1);
      }
      ReplaceFirst(u[1..], v, from, to);
      assert s[1..] == s1;
    }
  }

  lemma {:induction false} ReplaceNone(s: string, from: string, to: string)
    requires from != "" && Absent(s, from)
    ensures ReplaceAll(s, from, to) == s
  {
    if s != "" {
      OccursAtStart(s, from);
      assert s == [s[0]] + s[1..];
      forall j ensures !OccursAt(s[1..], from, j) {
        if 0 <= j { OccursInSuffix([s[0]], s[1..], from, j + 1); }
      }
      ReplaceNone(s[1..], from, to);
    }
  }

  lemma {:induction false} FirstOccurrence(s: string, key: string, i: int) returns (k: int)
    requires OccursAt(s, key, i)
    ensures 0 <= k <= i && OccursAt(s, key, k) && forall j :: 0 <= j < k ==> !OccursAt(s, key, j)
  {
    k := 0;
    while !OccursAt(s, key, k)
      invariant 0 <= k <= i && forall j :: 0 <= j < k ==> !OccursAt(s, key, j)
      decreases i - k
    {
      k := k + 1;
    }
  }

  /** The first occurrence shows in the result wherever the two names differ. */
  lemma FirstIsChanged(s: string, from: string, to: string, k: int, d: nat)
    requires OccursAt(s, from, k) && forall j :: 0 <= j < k ==> !OccursAt(s, from, j)
    requires Dashed(from, to) && d < |from|
    ensures |ReplaceAll(s, from, to)| == |s| && s[k + d] == from[d] && ReplaceAll(s, from, to)[k + d] == to[d]
  {
    var u, v := s[..k], s[k + |from|..];
    assert s == u + from + v;
    ReplaceFirst(u, v, from, to);
    ReplaceAllDashes(s, from, to);
  }

  /** Where a beginning is left unchanged, the name does not occur in it. */
  lemma UnchangedIsAbsent(s: string, from: string, to: string, n: nat, d: nat)
    requires n <= |s| && from != "" && Dashed(from, to) && d < |from| && from[d] != to[d]
    requires |ReplaceAll(s, from, to)| == |s| && forall i :: 0 <= i < n ==> ReplaceAll(s, from, to)[i] == s[i]
    ensures Absent(s[..n], from)
  {
    forall i ensures !OccursAt(s[..n], from, i) {
      assert s == s[..n] + s[n..];
      if OccursAt(s[..n], from, i) {
        OccursInPrefix(s[..n], s[n..], from, i);
        var k := FirstOccurrence(s, from, i);
        FirstIsChanged(s, from, to, k, d);
        assert false;
      }
    }
  }

  // ---------------------------------------------------------------------------
  // Splitting at the repository root

  /** No repository root in a path, seen with the slash in front of it. */
  ghost predicate NoRoot(path: string) {
    Absent("/" + path, ENVOY_ROOT)
  }

  lemma RootChars(s: string, i: int)
    requires OccursAt(s, ENVOY_ROOT, i)
    ensures s[i] == '/' && s[i + 1] == 'e' && s[i + 6] == '/'
  {
    assert s[i..i + 7][0] == '/' && s[i..i + 7][1] == 'e' && s[i..i + 7][6] == '/';
  }

  lemma RootInside(s: string, i: int, d: int)
    requires OccursAt(s, ENVOY_ROOT, i) && 0 < d < 6
    ensures s[i + d] != '/'
  {
    assert s[i..i + 7][d] == ENVOY_ROOT[d];
  }

  /** A root found from the end leaves a path without one. */
  lemma SplitParts(fname: string)
    requires SplitAtRoot(fname).Some?
    ensures var p := SplitAtRoot(fname).value;
            fname == p.absolute + p.path && EndsWith(p.absolute, ENVOY_ROOT) && NoRoot(p.path)
  {
    var i := RFind(fname, ENVOY_ROOT, |fname|);
    var p := SplitAtRoot(fname).value;
    assert p.absolute[|p.absolute| - 7..] == fname[i..i + 7];
    var u := fname[..i + 6];
    RootChars(fname, i);
    assert fname == u + ("/" + p.path);
    forall j ensures !OccursAt("/" + p.path, ENVOY_ROOT, j) {
      if 0 <= j { OccursInSuffix(u, "/" + p.path, ENVOY_ROOT, j + |u|); }
    }
  }

  /** Every root in `absolute + path` lies in `absolute` if the path has none. */
  lemma RootsBefore(absolute: string, path: string, r: int)
    requires EndsWith(absolute, ENVOY_ROOT) && NoRoot(path) && OccursAt(absolute + path, ENVOY_ROOT, r)
    ensures r <= |absolute| - 7
  {
    var n, s := |absolute|, absolute + path;
    OccursInPrefix(absolute, path, ENVOY_ROOT, n - 7);
    assert OccursAt(s, ENVOY_ROOT, n - 7);
    if r > n - 7 {
      RootChars(s, r);
      RootChars(s, n - 7);
      if r < n - 1 {
        RootInside(s, n - 7, r - (n - 7));
      } else {
        assert s == absolute[..n - 1] + ("/" + path);
        OccursInSuffix(absolute[..n - 1], "/" + path, ENVOY_ROOT, r);
      }
      assert false;
    }
  }

  lemma SplitUnique(absolute: string, path: string)
    requires EndsWith(absolute, ENVOY_ROOT) && NoRoot(path)
    ensures SplitAtRoot(absolute + path) == Some(Split(absolute, path))
  {
    var n, s := |absolute|, absolute + path;
    var i := RFind(s, ENVOY_ROOT, |s|);
    OccursInPrefix(absolute, path, ENVOY_ROOT, n - 7);
    assert OccursAt(s, ENVOY_ROOT, n - 7);
    RootsBefore(absolute, path, i);
    assert i == n - 7;
  }

  // ---------------------------------------------------------------------------
  // Emitted paths

  /** A directory after whose slashes no root begins. */
  ghost predicate Safe(q: string) {
    && q != "" && q[|q| - 1] != '/' && q[0] != 'e'
    && forall i :: 0 <= i < |q| - 1 && q[i] == '/' ==> q[i + 1] != 'e'
  }

  ghost predicate NoSlash(s: string) {
    forall i :: 0 <= i < |s| ==> s[i] != '/'
  }

  /** Swapping directory and ending of a path without a root gives no root. */
  lemma MiddleHasNoRoot(source: string, mid: string, ending: string, q: string, ending': string)
    requires NoRoot(source + mid + ending) && mid != "" && mid[0] == '/' && Safe(q) && NoSlash(ending')
    ensures NoRoot(q + mid + ending')
  {
    var t := "/" + (q + mid + ending');
    assert t == "/" + q + (mid + ending');
    forall i ensures !OccursAt(t, ENVOY_ROOT, i) {
      if OccursAt(t, ENVOY_ROOT, i) {
        RootChars(t, i);
        if i <= |q| {
          NoRootInSafe(q, mid + ending', i);
        } else {
          RootInMiddle(source, mid, ending, q, ending', i);
        }
      }
    }
  }

  lemma NoRootInSafe(q: string, rest: string, i: nat)
    requires Safe(q) && i <= |q| && rest != ""
    ensures var t := "/" + q + rest; !(t[i] == '/' && t[i + 1] == 'e')
  {}

  lemma RootInMiddle(source: string, mid: string, ending: string, q: string, ending': string, i: int)
    requires i > |q| && NoSlash(ending') && OccursAt("/" + (q + mid + ending'), ENVOY_ROOT, i)
    ensures OccursAt("/" + (source + mid + ending), ENVOY_ROOT, i - |q| + |source|)
  {
    var u, v := "/" + q, "/" + source;
    var k := i - |u|;
    RootChars("/" + (q + mid + ending'), i);
    assert "/" + (q + mid + ending') == u + (mid + ending');
    assert "/" + (source + mid + ending) == v + (mid + ending);
    OccursInSuffix(u, mid + ending', ENVOY_ROOT, i);
    assert (mid + ending')[k + 6] == '/';
    assert k + 6 < |mid|;
    OccursInPrefix(mid, ending', ENVOY_ROOT, k);
    OccursInPrefix(mid, ending, ENVOY_ROOT, k);
    OccursInSuffix(v, mid + ending, ENVOY_ROOT, k + |v|);
  }

  lemma RealDirHasRoot(s: string, i: int)
    requires OccursAt(s, REAL_DIR, i)
    ensures OccursAt(s, ENVOY_ROOT, i + 8)
  {
    assert s[i + 8..i + 15] == s[i..i + 15][8..15];
  }

  lemma NamesDiffer()
    ensures Dashed(REAL_DIR, SYNTHETIC_DIR) && |REAL_DIR| == 15 && REAL_DIR[8] == '/' && SYNTHETIC_DIR[8] == '-'
  {}

  /** A path without a root is not changed, after a location without the interface directory. */
  lemma SynthesizedOrdinary(absolute: string, path: string)
    requires EndsWith(absolute, ENVOY_ROOT) && Absent(absolute, REAL_DIR) && NoRoot(path)
    ensures Synthesized(absolute + path) == absolute + path
  {
    var s := absolute + path;
    forall i ensures !OccursAt(s, REAL_DIR, i) {
      if OccursAt(s, REAL_DIR, i) {
        RealDirHasRoot(s, i);
        RootsBefore(absolute, path, i + 8);
        OccursInPrefix(absolute, path, REAL_DIR, i);
        assert false;
      }
    }
    ReplaceNone(s, REAL_DIR, SYNTHETIC_DIR);
  }

  lemma RealDirChars(s: string, i: int, d: nat)
    requires OccursAt(s, REAL_DIR, i) && d < 15
    ensures s[i + d] == REAL_DIR[d]
  {
    assert s[i..i + 15][d] == REAL_DIR[d];
  }

  /** The interface directory cannot begin inside the root and end after it. */
  lemma NoEarlierRealDir(absolute: string, rest: string, j: int)
    requires EndsWith(absolute, ENVOY_ROOT) && Absent(absolute, REAL_DIR) && j < |absolute| - 1
    ensures !OccursAt(absolute + rest, REAL_DIR, j)
  {
    var n, s := |absolute|, absolute + rest;
    if OccursAt(s, REAL_DIR, j) {
      OccursInPrefix(absolute, rest, ENVOY_ROOT, n - 7);
      assert OccursAt(s, ENVOY_ROOT, n - 7);
      RootChars(s, n - 7);
      if j + 15 <= n {
        OccursInPrefix(absolute, rest, REAL_DIR, j);
      } else {
        RealDirChars(s, j, n - 1 - j);
        assert n - 1 - j == 8;
        RealDirChars(s, j, 2);
      }
      assert false;
    }
  }

  lemma RealDirNotAfterRoot(v: string, rest: string)
    requires Absent(v + rest, ENVOY_ROOT)
    ensures Absent(rest, REAL_DIR)
  {
    forall j ensures !OccursAt(rest, REAL_DIR, j) {
      if OccursAt(rest, REAL_DIR, j) {
        RealDirHasRoot(rest, j);
        OccursInSuffix(v, rest, ENVOY_ROOT, j + 8 + |v|);
      }
    }
  }

  lemma DirNames()
    ensures REAL_DIR == "/" + INTERFACE_REAL_ROOT + "/" && SYNTHETIC_DIR == "/" + INTERFACE_SYNTHETIC_ROOT + "/"
  {}

  lemma Regroup(u: string, root: string, dir: string, rest: string)
    requires dir == "/" + root + "/"
    ensures u + dir + rest == u + "/" + (root + "/" + rest)
  {}

  lemma Regroup0(root: string, dir: string, rest: string)
    requires dir == "/" + root + "/"
    ensures dir + rest == "/" + (root + "/" + rest)
  {}

  /** An interface path gets its synthetic name, after a location without the interface directory. */
  lemma SynthesizedInterface(u: string, rest: string)
    requires EndsWith(u + "/", ENVOY_ROOT) && Absent(u + "/", REAL_DIR)
    requires NoRoot(INTERFACE_SYNTHETIC_ROOT + "/" + rest)
    ensures Synthesized(u + REAL_DIR + rest) == u + SYNTHETIC_DIR + rest
  {
    DirNames();
    var after := INTERFACE_REAL_ROOT + "/" + rest;
    Regroup(u, INTERFACE_REAL_ROOT, REAL_DIR, rest);
    forall j | 0 <= j < |u| ensures !OccursAt(u + REAL_DIR + rest, REAL_DIR, j) {
      NoEarlierRealDir(u + "/", after, j);
    }
    ReplaceFirst(u, rest, REAL_DIR, SYNTHETIC_DIR);
    assert Absent(rest, REAL_DIR) by {
      Regroup0(INTERFACE_SYNTHETIC_ROOT, SYNTHETIC_DIR, rest);
      RealDirNotAfterRoot(SYNTHETIC_DIR, rest);
    }
    ReplaceNone(rest, REAL_DIR, SYNTHETIC_DIR);
  }
}
