/** What substituting a value does to the keys of a line, and which files keep their blocks. */
module ListenerLines {
  import opened Options
  import opened Text
  import opened ListenerRewriter

  // ---------------------------------------------------------------------------
  // Substitution keeps the keys of a line

  /** A key ends in its only colon and has no line end. */
  lemma KeyShape(key: string, i: nat)
    requires key in KEYS && i < |key|
    ensures key[i] == ':' <==> i == |key| - 1
    ensures key[i] != '\n'
  {}

  ghost predicate NoKeys(text: string) {
    forall key :: key in KEYS ==> !Contains(text, key)
  }

  /** No key spans a place before which a key ends, or at which a line ends. */
  lemma NoStraddle(u: string, x: string, key: string, i: int)
    requires key in KEYS && OccursAt(u + x, key, i)
    requires (u != "" && u[|u| - 1] == ':') || (x != "" && x[0] == '\n')
    ensures i + |key| <= |u| || |u| <= i
  {
    if i < |u| < i + |key| {
      assert (u + x)[i..i + |key|] == key;
      assert key[|u| - i] == (u + x)[|u|] && key[|u| - 1 - i] == (u + x)[|u| - 1];
      KeyShape(key, |u| - i);
      KeyShape(key, |u| - 1 - i);
    }
  }

  lemma ContainsParts(u: string, x: string, key: string)
    requires key in KEYS
    ensures Contains(u, key) || Contains(x, key) ==> Contains(u + x, key)
    ensures u == "" || x == "" || u[|u| - 1] == ':' || x[0] == '\n' ==>
              (Contains(u + x, key) ==> Contains(u, key) || Contains(x, key))
  {
    if Contains(u, key) {
      var i :| 0 <= i <= |u| && OccursAt(u, key, i);
      OccursInPrefix(u, x, key, i);
    }
    if Contains(x, key) {
      var i :| 0 <= i <= |x| && OccursAt(x, key, i);
      OccursInSuffix(u, x, key, i + |u|);
    }
    assert u == "" ==> u + x == x;
    assert x == "" ==> u + x == u;
    if u != "" && x != "" && (u[|u| - 1] == ':' || x[0] == '\n') && Contains(u + x, key) {
      var i :| 0 <= i <= |u + x| && OccursAt(u + x, key, i);
      NoStraddle(u, x, key, i);
      if |u| <= i { OccursInSuffix(u, x, key, i); } else { OccursInPrefix(u, x, key, i); }
    }
  }

  /** What stands in front decides the first occurrence, and what is left after it. */
  lemma FirstInPrefix(u: string, x: string, key: string)
    requires Contains(u, key)
    ensures Contains(u + x, key) && First(u + x, key) == First(u, key)
    ensures After(u + x, key) == After(u, key) + x
  {
    var i := First(u, key);
    OccursInPrefix(u, x, key, i);
    forall j | 0 <= j < i ensures !OccursAt(u + x, key, j) {
      OccursInPrefix(u, x, key, j);
    }
  }

  /** The part of a line up to and including the first occurrence of a key. */
  function Head(line: string, key: string): string
    requires Contains(line, key)
  {
    line[..First(line, key) + |key|]
  }

  lemma HeadHasKey(line: string, key: string)
    requires Contains(line, key)
    ensures line == Head(line, key) + After(line, key)
    ensures Contains(Head(line, key), key) && After(Head(line, key), key) == ""
  {
    var u, x := Head(line, key), After(line, key);
    assert line == u + x;
    OccursInPrefix(u, x, key, First(line, key));
    FirstInPrefix(u, x, key);
  }

  lemma HeadEndsInColon(line: string, key: string)
    requires key in KEYS && Contains(line, key)
    ensures var u := Head(line, key); u != "" && u[|u| - 1] == ':'
  {
    var i := First(line, key);
    KeyShape(key, |key| - 1);
    assert Head(line, key)[i + |key| - 1] == line[i..i + |key|][|key| - 1];
  }

  lemma {:induction false} UpToNewlineAppend(value: string, tail: string)
    requires '\n' !in value && (tail == "" || tail[0] == '\n')
    ensures UpToNewline(value + tail) == value
  {
    if value == "" {
      assert value + tail == tail;
    } else {
      UpToNewlineAppend(value[1..], tail);
      assert (value + tail)[1..] == value[1..] + tail;
    }
  }

  /** The part of a line after the value of a key. */
  function Tail(line: string, key: string): string
    requires Contains(line, key)
  {
    After(line, key)[|ValueOf(line, key)|..]
  }

  lemma SubstitutedParts(line: string, key: string, value: string)
    requires Contains(line, key)
    ensures var tail := Tail(line, key);
            && Substituted(line, key, value) == Head(line, key) + (value + tail)
            && (tail == "" || tail[0] == '\n')
  {}

  /** Reading the value after substituting it gives it back, on every line. */
  lemma SubstitutedLine(line: string, key: string, value: string)
    requires Contains(line, key)
    ensures Contains(Substituted(line, key, value), key)
    ensures Head(Substituted(line, key, value), key) == Head(line, key)
    ensures '\n' !in value ==> ValueOf(Substituted(line, key, value), key) == value
  {
    var u, tail := Head(line, key), Tail(line, key);
    HeadHasKey(line, key);
    SubstitutedParts(line, key, value);
    FirstInPrefix(u, value + tail, key);
    assert First(u, key) == First(line, key) by { FirstInPrefix(u, After(line, key), key); }
    ValueAfterHead(u, key, value, tail);
  }

  lemma ValueAfterHead(u: string, key: string, value: string, tail: string)
    requires Contains(u, key) && After(u, key) == "" && (tail == "" || tail[0] == '\n')
    ensures Contains(u + (value + tail), key)
    ensures '\n' !in value ==> ValueOf(u + (value + tail), key) == value
  {
    FirstInPrefix(u, value + tail, key);
    assert After(u + (value + tail), key) == value + tail;
    if '\n' !in value { UpToNewlineAppend(value, tail); }
  }

  // ---------------------------------------------------------------------------
  // Which substitutions keep the keys of a line

  ghost predicate SameKeysOf(line: string, line': string) {
    forall key :: key in KEYS ==> (Contains(line', key) <==> Contains(line, key))
  }

  /** Every key on the line occurs already up to the end of `key`. */
  ghost predicate Kept(line: string, key: string) {
    Contains(line, key) && forall k :: k in KEYS && Contains(line, k) ==> Contains(Head(line, key), k)
  }

  lemma ContainsThree(u: string, value: string, tail: string, k: string)
    requires k in KEYS && u != "" && u[|u| - 1] == ':' && (tail == "" || tail[0] == '\n')
    ensures Contains(u + (value + tail), k) <==> Contains(u, k) || Contains(value, k) || Contains(tail, k)
  {
    ContainsParts(u, value + tail, k);
    ContainsParts(value, tail, k);
  }

  lemma KeysOfLine(line: string, key: string, k: string)
    requires key in KEYS && Contains(line, key) && k in KEYS
    ensures Contains(line, k) <==>
            Contains(Head(line, key), k) || Contains(ValueOf(line, key), k) || Contains(Tail(line, key), k)
  {
    LineParts(line, key);
    HeadEndsInColon(line, key);
    ContainsThree(Head(line, key), ValueOf(line, key), Tail(line, key), k);
  }

  lemma LineParts(line: string, key: string)
    requires Contains(line, key)
    ensures line == Head(line, key) + (ValueOf(line, key) + Tail(line, key))
    ensures Tail(line, key) == "" || Tail(line, key)[0] == '\n'
  {
    HeadHasKey(line, key);
    PrefixAndRest(ValueOf(line, key), After(line, key));
  }

  lemma PrefixAndRest(u: string, text: string)
    requires u <= text
    ensures text == u + text[|u|..]
  {}

  lemma KeysOfSubstituted(line: string, key: string, value: string, k: string)
    requires key in KEYS && Contains(line, key) && k in KEYS
    ensures Contains(Substituted(line, key, value), k) <==>
            Contains(Head(line, key), k) || Contains(value, k) || Contains(Tail(line, key), k)
  {
    HeadEndsInColon(line, key);
    SubstitutedParts(line, key, value);
    ContainsThree(Head(line, key), value, Tail(line, key), k);
  }

  /** Substituting a value without key text keeps the keys of such a line, which stays such a line. */
  lemma KeptIsKept(line: string, key: string, value: string)
    requires key in KEYS && Kept(line, key) && NoKeys(value)
    ensures SameKeysOf(line, Substituted(line, key, value)) && Kept(Substituted(line, key, value), key)
  {
    var line' := Substituted(line, key, value);
    SubstitutedLine(line, key, value);
    forall k | k in KEYS ensures Contains(line', k) <==> Contains(line, k) {
      KeysOfLine(line, key, k);
      KeysOfSubstituted(line, key, value, k);
    }
  }

  /** On a line that ends with its only line end, if at all, the keys are kept exactly under this condition. */
  lemma KeysAreKeptIff(line: string, key: string, value: string)
    requires key in KEYS && Contains(line, key) && NoKeys(value)
    requires forall i :: 0 <= i < |line| - 1 ==> line[i] != '\n'
    ensures SameKeysOf(line, Substituted(line, key, value)) <==> Kept(line, key)
  {
    if Kept(line, key) {
      KeptIsKept(line, key, value);
    } else {
      var k :| k in KEYS && Contains(line, k) && !Contains(Head(line, key), k);
      KeyAfterIsLost(line, key, value, k);
    }
  }

  /** A key that occurs only after the substituted one is lost. */
  lemma KeyAfterIsLost(line: string, key: string, value: string, k: string)
    requires key in KEYS && Contains(line, key) && NoKeys(value) && k in KEYS && !Contains(Head(line, key), k)
    requires forall i :: 0 <= i < |line| - 1 ==> line[i] != '\n'
    ensures !Contains(Substituted(line, key, value), k)
  {
    KeysOfSubstituted(line, key, value, k);
    ShortTail(line, key);
    ShortHasNoKeys(Tail(line, key), k);
  }

  lemma ShortTail(line: string, key: string)
    requires Contains(line, key) && forall i :: 0 <= i < |line| - 1 ==> line[i] != '\n'
    ensures |Tail(line, key)| <= 1
  {
    var tail := Tail(line, key);
    assert tail == "" || line[|line| - |tail|] == '\n';
  }

  lemma ShortHasNoKeys(text: string, key: string)
    requires key in KEYS && |text| <= 1
    ensures !Contains(text, key)
  {}

  /** The keys that values follow. */
  ghost predicate IsValueKey(key: string) {
    key == PATH || key == ADDRESS || key == PORT_VALUE
  }

  /** A value key is known by its last letter. */
  lemma LastLetterTells(a: string, b: string)
    requires IsValueKey(a) && IsValueKey(b)
    ensures a in KEYS && |a| >= 2 && |b| >= 2 && (a[|a| - 2] == b[|b| - 2] ==> a == b)
  {}

  /** Two value keys that both keep the keys of a line end at the same place, and so are the same. */
  lemma SameValueKey(line: string, a: string, b: string)
    requires IsValueKey(a) && IsValueKey(b) && Kept(line, a) && Kept(line, b)
    ensures a == b
  {
    LastLetterTells(a, b);
    LastLetterTells(b, a);
    SameEnd(line, a, b);
    SameEnd(line, b, a);
    SameLetter(line, a, First(line, a), b, First(line, b));
  }

  lemma SameLetter(line: string, a: string, i: int, b: string, j: int)
    requires |a| >= 2 && |b| >= 2 && OccursAt(line, a, i) && OccursAt(line, b, j) && i + |a| == j + |b|
    ensures a[|a| - 2] == b[|b| - 2]
  {
    assert line[i..i + |a|][|a| - 2] == line[j..j + |b|][|b| - 2];
  }

  lemma SameEnd(line: string, a: string, b: string)
    requires a in KEYS && b in KEYS && Kept(line, a) && Contains(line, b)
    ensures First(line, b) + |b| <= First(line, a) + |a|
  {
    var u, x := Head(line, a), After(line, a);
    HeadHasKey(line, a);
    FirstInPrefix(u, x, b);
  }

  // ---------------------------------------------------------------------------
  // Files whose blocks stay when they are rewritten

  /** How many value lines follow the first line of a block, and their keys and new values. */
  function Width(l: Listener): nat {
    if l.Pipe? then 1 else 2
  }

  function ValueKey(l: Listener, d: nat): string {
    if l.Pipe? then PATH else if d == 1 then ADDRESS else PORT_VALUE
  }

  function NewValue(l: Listener, d: nat): string {
    match l
    case Pipe(path) => Quoted(path)
    case Socket(address, port) => if d == 1 then Quoted(Stripped(address)) else " " + port
  }

  lemma ValueKeyIs(l: Listener, d: nat)
    ensures IsValueKey(ValueKey(l, d)) && ValueKey(l, d) in KEYS
  {}

  lemma ReplacedOutside(lines: seq<string>, l: Listener, i: nat, j: nat)
    requires BlockAt(lines, l, i) && j < |lines| && !(i < j <= i + Width(l))
    ensures Replaced(lines, l, i)[j] == lines[j]
  {}

  lemma ReplacedValue(lines: seq<string>, l: Listener, i: nat, d: nat)
    requires BlockAt(lines, l, i) && 1 <= d <= Width(l)
    ensures i + d < |lines| && Contains(lines[i + d], ValueKey(l, d))
    ensures Replaced(lines, l, i)[i + d] == Substituted(lines[i + d], ValueKey(l, d), NewValue(l, d))
  {
    match l
    case Pipe(path) =>
      assert d == 1;
    case Socket(address, port) =>
      if d != 1 { assert d == 2; }
  }

  /** The value lines of the block keep their keys when the values are substituted. */
  ghost predicate ValuesKept(lines: seq<string>, l: Listener, i: int)
    requires BlockAt(lines, l, i)
  {
    forall d :: 1 <= d <= Width(l) ==> Kept(lines[i + d], ValueKey(l, d))
  }

  /** Every block of the file is such a block; what other lines hold does not matter. */
  ghost predicate Settled(lines: seq<string>) {
    forall l, i :: BlockAt(lines, l, i) ==> ValuesKept(lines, l, i)
  }

  /** One key on each line, and no key text in values: a simple kind of such a file. */
  ghost predicate Clean(lines: seq<string>) {
    forall i, key :: 0 <= i < |lines| && key in KEYS && Contains(lines[i], key) ==> NoKeys(After(lines[i], key))
  }

  lemma CleanIsSettled(lines: seq<string>)
    requires Clean(lines)
    ensures Settled(lines)
  {
    forall l, i | BlockAt(lines, l, i) ensures ValuesKept(lines, l, i) {
      forall d | 1 <= d <= Width(l) ensures Kept(lines[i + d], ValueKey(l, d)) {
        CleanBlock(lines, l, i, d);
      }
    }
  }

  lemma CleanBlock(lines: seq<string>, l: Listener, i: nat, d: nat)
    requires Clean(lines) && BlockAt(lines, l, i) && 1 <= d <= Width(l)
    ensures Kept(lines[i + d], ValueKey(l, d))
  {
    ReplacedValue(lines, l, i, d);
    ValueKeyIs(l, d);
    CleanIsKept(lines[i + d], ValueKey(l, d));
  }

  lemma CleanIsKept(line: string, key: string)
    requires key in KEYS && Contains(line, key) && NoKeys(After(line, key))
    ensures Kept(line, key)
  {
    HeadHasKey(line, key);
    HeadEndsInColon(line, key);
    forall k | k in KEYS && Contains(line, k) ensures Contains(Head(line, key), k) {
      ContainsParts(Head(line, key), After(line, key), k);
    }
  }

  /** The values of a listener hold no key text and no line end. */
  ghost predicate Plain(l: Listener) {
    match l
    case Pipe(path) => PlainValue(Quoted(path))
    case Socket(address, port) => PlainValue(Quoted(Stripped(address))) && PlainValue(" " + port)
  }

  ghost predicate PlainValue(value: string) {
    NoKeys(value) && '\n' !in value
  }

  ghost predicate SameShape(lines: seq<string>, lines': seq<string>) {
    |lines'| == |lines| && forall i :: 0 <= i < |lines| ==> SameKeysOf(lines[i], lines'[i])
  }

  lemma BlockAtShape(lines: seq<string>, lines': seq<string>, l: Listener, i: int)
    requires SameShape(lines, lines')
    ensures BlockAt(lines', l, i) <==> BlockAt(lines, l, i)
  {
    if 0 <= i < |lines| { assert SameKeysOf(lines[i], lines'[i]); }
    if 0 <= i + 1 < |lines| { assert SameKeysOf(lines[i + 1], lines'[i + 1]); }
    if 0 <= i + 2 < |lines| { assert SameKeysOf(lines[i + 2], lines'[i + 2]); }
  }

  lemma PlainHasPlainValues(l: Listener, d: nat)
    requires Plain(l)
    ensures PlainValue(NewValue(l, d))
  {}

  /** What rewriting the block does to one of its value lines. */
  lemma ValueReplaced(lines: seq<string>, l: Listener, i: nat, d: nat)
    requires BlockAt(lines, l, i) && ValuesKept(lines, l, i) && Plain(l) && 1 <= d <= Width(l)
    ensures Kept(lines[i + d], ValueKey(l, d)) && Kept(Replaced(lines, l, i)[i + d], ValueKey(l, d))
    ensures SameKeysOf(lines[i + d], Replaced(lines, l, i)[i + d])
  {
    ReplacedValue(lines, l, i, d);
    ValueKeyIs(l, d);
    PlainHasPlainValues(l, d);
    KeptIsKept(lines[i + d], ValueKey(l, d), NewValue(l, d));
  }

  lemma OneLineChanged(lines: seq<string>, j: nat, line: string)
    requires j < |lines| && SameKeysOf(lines[j], line)
    ensures SameShape(lines, lines[j := line])
  {
    forall i | 0 <= i < |lines| && i != j ensures SameKeysOf(lines[i], lines[j := line][i]) {}
  }

  lemma TwoLinesChanged(lines: seq<string>, j: nat, a: string, b: string)
    requires j + 1 < |lines| && SameKeysOf(lines[j], a) && SameKeysOf(lines[j + 1], b)
    ensures SameShape(lines, lines[j := a][j + 1 := b])
  {
    var lines1 := lines[j := a];
    OneLineChanged(lines, j, a);
    OneLineChanged(lines1, j + 1, b);
    forall i | 0 <= i < |lines| ensures SameKeysOf(lines[i], lines1[j + 1 := b][i]) {
      assert SameKeysOf(lines[i], lines1[i]) && SameKeysOf(lines1[i], lines1[j + 1 := b][i]);
    }
  }

  lemma ReplacedIsUpdate(lines: seq<string>, l: Listener, i: nat)
    requires BlockAt(lines, l, i)
    ensures var lines' := Replaced(lines, l, i);
            lines' == if l.Pipe? then lines[i + 1 := lines'[i + 1]]
                      else lines[i + 1 := lines'[i + 1]][i + 2 := lines'[i + 2]]
  {}

  lemma ValueSameKeys(lines: seq<string>, l: Listener, i: nat, d: nat)
    requires BlockAt(lines, l, i) && ValuesKept(lines, l, i) && Plain(l) && 1 <= d <= Width(l)
    ensures i + d < |lines| && SameKeysOf(lines[i + d], Replaced(lines, l, i)[i + d])
  {
    ValueReplaced(lines, l, i, d);
  }

  lemma PipeSameShape(lines: seq<string>, l: Listener, i: nat)
    requires BlockAt(lines, l, i) && l.Pipe? && SameKeysOf(lines[i + 1], Replaced(lines, l, i)[i + 1])
    ensures SameShape(lines, Replaced(lines, l, i))
  {
    ReplacedIsUpdate(lines, l, i);
    OneLineChanged(lines, i + 1, Replaced(lines, l, i)[i + 1]);
  }

  lemma SocketSameShape(lines: seq<string>, l: Listener, i: nat)
    requires BlockAt(lines, l, i) && l.Socket? && SameKeysOf(lines[i + 1], Replaced(lines, l, i)[i + 1])
    requires SameKeysOf(lines[i + 2], Replaced(lines, l, i)[i + 2])
    ensures SameShape(lines, Replaced(lines, l, i))
  {
    ReplacedIsUpdate(lines, l, i);
    TwoLinesChanged(lines, i + 1, Replaced(lines, l, i)[i + 1], Replaced(lines, l, i)[i + 2]);
  }

  /** Rewriting a block keeps the keys of every line. */
  lemma ReplacedSameShape(lines: seq<string>, l: Listener, i: nat)
    requires BlockAt(lines, l, i) && ValuesKept(lines, l, i) && Plain(l)
    ensures SameShape(lines, Replaced(lines, l, i))
  {
    ValueSameKeys(lines, l, i, 1);
    if l.Pipe? {
      PipeSameShape(lines, l, i);
    } else {
      ValueSameKeys(lines, l, i, 2);
      SocketSameShape(lines, l, i);
    }
  }

  lemma OtherKeyStaysKept(line: string, line': string, key: string, key': string)
    requires IsValueKey(key) && IsValueKey(key') && Kept(line, key) && Kept(line, key') && Kept(line', key)
    ensures Kept(line', key')
  {
    SameValueKey(line, key, key');
  }

  /** A value line of another block keeps its keys also after the block at `i` has been rewritten. */
  lemma ValueStaysKept(lines: seq<string>, l: Listener, i: nat, j: nat, key: string)
    requires BlockAt(lines, l, i) && ValuesKept(lines, l, i) && Plain(l)
    requires j < |lines| && IsValueKey(key) && Kept(lines[j], key)
    ensures Kept(Replaced(lines, l, i)[j], key)
  {
    if i < j <= i + Width(l) {
      ValueReplaced(lines, l, i, j - i);
      ValueKeyIs(l, j - i);
      OtherKeyStaysKept(lines[j], Replaced(lines, l, i)[j], ValueKey(l, j - i), key);
    } else {
      ReplacedOutside(lines, l, i, j);
    }
  }

  lemma BlockStaysKept(lines: seq<string>, l: Listener, i: nat, l': Listener, i': nat)
    requires BlockAt(lines, l, i) && ValuesKept(lines, l, i) && Plain(l)
    requires BlockAt(lines, l', i') && ValuesKept(lines, l', i') && BlockAt(Replaced(lines, l, i), l', i')
    ensures ValuesKept(Replaced(lines, l, i), l', i')
  {
    forall d | 1 <= d <= Width(l') ensures Kept(Replaced(lines, l, i)[i' + d], ValueKey(l', d)) {
      ValueKeyIs(l', d);
      ValueStaysKept(lines, l, i, i' + d, ValueKey(l', d));
    }
  }

  /** Rewriting a block leaves a file with the same blocks, which stay when they are rewritten. */
  lemma ReplacedShape(lines: seq<string>, l: Listener, i: nat)
    requires Settled(lines) && Plain(l) && BlockAt(lines, l, i)
    ensures Settled(Replaced(lines, l, i)) && SameShape(lines, Replaced(lines, l, i))
  {
    var lines' := Replaced(lines, l, i);
    assert ValuesKept(lines, l, i);
    ReplacedSameShape(lines, l, i);
    forall l', i' | BlockAt(lines', l', i') ensures ValuesKept(lines', l', i') {
      BlockAtShape(lines, lines', l', i');
      BlockStaysKept(lines, l, i, l', i');
    }
  }
}
