/** Files and listeners for which the rewriter does not match the blocks of the original file. */
module ListenerLimits {
  import opened Options
  import opened Text
  import opened ListenerRewriter
  import opened ListenerLines
  import opened ListenerTheorems

  lemma Lacks(text: string, key: string, i: nat)
    requires i < |key| && key[i] !in text
    ensures !Contains(text, key)
  {
    forall j ensures !OccursAt(text, key, j) {
      if 0 <= j <= |text| - |key| { assert text[j..j + |key|][i] != key[i]; }
    }
  }

  lemma NoColonNoKeys(text: string)
    requires ':' !in text
    ensures NoKeys(text)
  {
    forall key | key in KEYS ensures !Contains(text, key) {
      KeyShape(key, |key| - 1);
      Lacks(text, key, |key| - 1);
    }
  }

  lemma StartsWith(key: string, rest: string)
    ensures Contains(key + rest, key) && After(key + rest, key) == rest
  {
    assert (key + rest)[0..|key|] == key;
    assert OccursAt(key + rest, key, 0);
  }

  /** Four lines: the second begins a pipe block, and the last two hold paths. */
  ghost predicate PipeAndPaths(lines: seq<string>) {
    |lines| == 4 && Contains(lines[1], PIPE) && Contains(lines[2], PATH) && Contains(lines[3], PATH)
  }

  /** Of two pipes the second is found at the third line or nowhere, as the rewritten line says. */
  lemma TwoPipes(lines: seq<string>, a: string, b: string)
    requires PipeAndPaths(lines)
    ensures var line := Substituted(lines[2], PATH, Quoted(a));
            Rewrite(lines, [Pipe(a), Pipe(b)], 0).outcome == if Contains(line, PIPE) then Updated else NoBlock
  {
    var listeners := [Pipe(a), Pipe(b)];
    assert listeners[1..] == [Pipe(b)] && [Pipe(b)][1..] == [];
    assert BlockAt(lines, Pipe(a), 1) && Search(lines, Pipe(a), 1) == Some(1);
    var lines1 := Replaced(lines, Pipe(a), 1);
    assert lines1[3] == lines[3];
    assert BlockAt(lines1, Pipe(b), 2) <==> Contains(lines1[2], PIPE);
    assert Search(lines1, Pipe(b), 2) == if Contains(lines1[2], PIPE) then Some(2) else None;
    assert Rewrite(lines, listeners, 0).outcome == Rewrite(lines1, [Pipe(b)], 1).outcome;
    if Contains(lines1[2], PIPE) {
      assert Rewrite(lines1, [Pipe(b)], 1).outcome == Rewrite(Replaced(lines1, Pipe(b), 2), [], 2).outcome;
    }
  }

  /** Without socket keys, and with the pipe key on the second line only, there is one block. */
  lemma OneBlock(lines: seq<string>, l: Listener, i: int)
    requires PipeAndPaths(lines)
    requires forall j :: 0 <= j < 4 ==> !Contains(lines[j], SOCKET_ADDRESS) && (j != 1 ==> !Contains(lines[j], PIPE))
    ensures BlockAt(lines, l, i) <==> l.Pipe? && i == 1
  {}

  lemma OneBlockOneListener(lines: seq<string>, listeners: seq<Listener>, ps: seq<nat>)
    requires PipeAndPaths(lines) && |listeners| == 2
    requires forall j :: 0 <= j < 4 ==> !Contains(lines[j], SOCKET_ADDRESS) && (j != 1 ==> !Contains(lines[j], PIPE))
    ensures !Assignment(lines, listeners, 1, ps)
  {
    if Assignment(lines, listeners, 1, ps) {
      OneBlock(lines, listeners[0], ps[0]);
      OneBlock(lines, listeners[1], ps[1]);
    }
  }

  lemma OneBlockSettled(lines: seq<string>)
    requires PipeAndPaths(lines) && Kept(lines[2], PATH)
    requires forall j :: 0 <= j < 4 ==> !Contains(lines[j], SOCKET_ADDRESS) && (j != 1 ==> !Contains(lines[j], PIPE))
    ensures Settled(lines)
  {
    forall l, i | BlockAt(lines, l, i) ensures ValuesKept(lines, l, i) {
      OneBlock(lines, l, i);
      forall d | 1 <= d <= Width(l) ensures Kept(lines[i + d], ValueKey(l, d)) {
        assert d == 1;
      }
    }
  }

  const LINES := ["", PIPE, PATH + " a", PATH + " b"]

  lemma LinesHold()
    ensures PipeAndPaths(LINES) && Kept(LINES[2], PATH)
  {
    StartsWith(PIPE, "");
    assert PIPE + "" == PIPE;
    StartsWith(PATH, " b");
    PathLine(" a");
  }

  lemma PathLine(rest: string)
    requires ':' !in rest
    ensures Contains(PATH + rest, PATH) && Kept(PATH + rest, PATH)
  {
    StartsWith(PATH, rest);
    NoColonNoKeys(rest);
    CleanIsKept(PATH + rest, PATH);
  }

  lemma LinesLack(j: nat)
    requires j < 4
    ensures !Contains(LINES[j], SOCKET_ADDRESS) && (j != 1 ==> !Contains(LINES[j], PIPE))
  {
    Lacks(LINES[j], SOCKET_ADDRESS, 0);
    if j != 1 { Lacks(LINES[j], PIPE, 1); }
  }

  /**
   * A path that holds the text of a key makes the rewriter find a block that is
   * not in the file: it succeeds, although there is one block for two listeners.
   */
  lemma KeyTextInAValueMisleads()
    ensures Settled(LINES) && Rewrite(LINES, [Pipe(PIPE), Pipe("x")], 0).outcome.Updated?
    ensures forall ps :: !Assignment(LINES, [Pipe(PIPE), Pipe("x")], 1, ps)
  {
    LinesHold();
    forall j | 0 <= j < 4 ensures !Contains(LINES[j], SOCKET_ADDRESS) && (j != 1 ==> !Contains(LINES[j], PIPE)) {
      LinesLack(j);
    }
    OneBlockSettled(LINES);
    forall ps ensures !Assignment(LINES, [Pipe(PIPE), Pipe("x")], 1, ps) {
      OneBlockOneListener(LINES, [Pipe(PIPE), Pipe("x")], ps);
    }
    TwoPipes(LINES, PIPE, "x");
    KeysOfSubstituted(LINES[2], PATH, Quoted(PIPE), PIPE);
    HasText(" \"", PIPE, "\"");
  }

  const TWO_KEYS := ["", PIPE, PATH + " pipe:", PATH + " b"]

  lemma TwoKeysHold()
    ensures PipeAndPaths(TWO_KEYS) && Contains(TWO_KEYS[2], PIPE) && After(TWO_KEYS[2], PATH) == " pipe:"
  {
    StartsWith(PIPE, "");
    assert PIPE + "" == PIPE;
    StartsWith(PATH, " pipe:");
    StartsWith(PATH, " b");
    HasText(PATH + " ", PIPE, "");
    assert PATH + " " + PIPE + "" == TWO_KEYS[2];
  }

  /**
   * A key after the key of a value is lost when the value is substituted: the
   * rewriter fails, although each of the two listeners has its block.
   */
  lemma KeyAfterAKeyMisleads()
    ensures AllPlain([Pipe("x"), Pipe("y")]) && Assignment(TWO_KEYS, [Pipe("x"), Pipe("y")], 1, [1, 2])
    ensures Rewrite(TWO_KEYS, [Pipe("x"), Pipe("y")], 0).outcome == NoBlock
  {
    TwoKeysHold();
    PlainPipe("x");
    PlainPipe("y");
    TwoBlocks(TWO_KEYS, Pipe("x"), Pipe("y"));
    SecondIsLost(TWO_KEYS, " pipe:", "x", "y");
  }

  lemma TwoBlocks(lines: seq<string>, a: Listener, b: Listener)
    requires PipeAndPaths(lines) && Contains(lines[2], PIPE) && a.Pipe? && b.Pipe?
    ensures Assignment(lines, [a, b], 1, [1, 2])
  {}

  lemma SecondIsLost(lines: seq<string>, rest: string, a: string, b: string)
    requires PipeAndPaths(lines) && lines[2] == PATH + rest && '\n' !in rest && ':' !in a
    ensures Rewrite(lines, [Pipe(a), Pipe(b)], 0).outcome == NoBlock
  {
    TwoPipes(lines, a, b);
    SubstitutedLacksPipe(rest, Quoted(a));
  }

  lemma PlainPipe(path: string)
    requires ':' !in path && '\n' !in path
    ensures Plain(Pipe(path))
  {
    NoColonNoKeys(Quoted(path));
  }

  lemma SubstitutedLacksPipe(rest: string, value: string)
    requires ':' !in value && '\n' !in rest
    ensures !Contains(Substituted(PATH + rest, PATH, value), PIPE)
  {
    HeadAtStart(PATH, rest);
    Lacks(PATH, PIPE, 1);
    NoColonNoKeys(value);
    KeyAfterIsLost(PATH + rest, PATH, value, PIPE);
  }

  lemma HeadAtStart(key: string, rest: string)
    ensures Contains(key + rest, key) && Head(key + rest, key) == key
  {
    StartsWith(key, rest);
    HeadHasKey(key + rest, key);
    var u := Head(key + rest, key);
    assert |u| == |key| && u == (key + rest)[..|u|];
  }
}
