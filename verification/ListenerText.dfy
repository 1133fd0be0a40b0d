/** What the listener rewriter writes, in the text of the file. */
module ListenerText {
  import opened Options
  import opened Text
  import opened ListenerRewriter
  import opened ListenerLines
  import opened ListenerTheorems

  /** A block is found by these texts. */
  lemma BlockIs(lines: seq<string>, l: Listener, i: int)
    ensures BlockAt(lines, l, i) <==>
            if l.Pipe? then 0 <= i < |lines| - 1 && Contains(lines[i], "pipe:") && Contains(lines[i + 1], "path:")
            else && 0 <= i < |lines| - 2 && Contains(lines[i], "socket_address:")
                 && Contains(lines[i + 1], "address:") && Contains(lines[i + 2], "port_value:")
  {}

  /** `line` is `u`, the first `key`, and `rest` up to the end of the line; in `line'` `value` stands for `rest`. */
  ghost predicate RewrittenAt(
    line: string, line': string, key: string, value: string, u: string, rest: string, tail: string)
  {
    && line == u + key + rest + tail && line' == u + key + value + tail
    && (forall j :: 0 <= j < |u| ==> !OccursAt(line, key, j))
    && '\n' !in rest && (tail == "" || tail[0] == '\n')
  }

  /** In `line'` the text after the first `key`, up to the end of the line, is `value`; all else is as in `line`. */
  ghost predicate Rewritten(line: string, line': string, key: string, value: string) {
    exists u, rest, tail :: RewrittenAt(line, line', key, value, u, rest, tail)
  }

  lemma SubstitutedIsRewritten(line: string, key: string, value: string)
    requires Contains(line, key)
    ensures Rewritten(line, Substituted(line, key, value), key, value)
  {
    var i := First(line, key);
    var u, rest, tail := line[..i], ValueOf(line, key), Tail(line, key);
    LineParts(line, key);
    SubstitutedParts(line, key, value);
    HeadIs(line, key);
    RewrittenParts(line, Substituted(line, key, value), key, value, u, rest, tail);
  }

  lemma HeadIs(line: string, key: string)
    requires Contains(line, key)
    ensures Head(line, key) == line[..First(line, key)] + key
  {
    var i := First(line, key);
    assert line[i..i + |key|] == key;
  }

  lemma RewrittenParts(line: string, line': string, key: string, value: string, u: string, rest: string, tail: string)
    requires line == u + key + (rest + tail) && line' == u + key + (value + tail)
    requires (forall j :: 0 <= j < |u| ==> !OccursAt(line, key, j)) && '\n' !in rest && (tail == "" || tail[0] == '\n')
    ensures Rewritten(line, line', key, value)
  {
    assert line == u + key + rest + tail && line' == u + key + value + tail;
    assert RewrittenAt(line, line', key, value, u, rest, tail);
  }

  lemma FirstIs(u: string, key: string, rest: string)
    requires forall j :: 0 <= j < |u| ==> !OccursAt(u + key + rest, key, j)
    ensures Contains(u + key + rest, key) && First(u + key + rest, key) == |u|
  {
    HasText(u, key, rest);
    assert (u + key + rest)[|u|..|u| + |key|] == key;
    assert OccursAt(u + key + rest, key, |u|);
  }

  lemma AfterIs(u: string, key: string, rest: string)
    requires Contains(u + key + rest, key) && First(u + key + rest, key) == |u|
    ensures After(u + key + rest, key) == rest && Head(u + key + rest, key) == u + key
  {}

  lemma TailIs(line: string, key: string, rest: string, tail: string)
    requires Contains(line, key) && After(line, key) == rest + tail
    requires '\n' !in rest && (tail == "" || tail[0] == '\n')
    ensures Tail(line, key) == tail
  {
    UpToNewlineAppend(rest, tail);
    assert (rest + tail)[|rest|..] == tail;
  }

  /** The text of a rewritten line is determined: the key is found once. */
  lemma RewrittenIs(u: string, key: string, rest: string, tail: string, value: string)
    requires (forall j :: 0 <= j < |u| ==> !OccursAt(u + key + rest + tail, key, j))
    requires '\n' !in rest && (tail == "" || tail[0] == '\n')
    ensures Contains(u + key + rest + tail, key)
    ensures Substituted(u + key + rest + tail, key, value) == u + key + value + tail
  {
    var line := u + key + (rest + tail);
    assert line == u + key + rest + tail;
    FirstIs(u, key, rest + tail);
    AfterIs(u, key, rest + tail);
    TailIs(line, key, rest, tail);
    SubstitutedParts(line, key, value);
    assert u + key + (value + tail) == u + key + value + tail;
  }

  /** The address without its brackets: the first and the last character are dropped if the first is a bracket. */
  ghost predicate Bare(address: string, bare: string) {
    if address != "" && address[0] == '['
    then (address == "[" && bare == "") || exists c: char :: address == "[" + bare + [c]
    else bare == address
  }

  lemma StrippedIsBare(address: string)
    ensures Bare(address, Stripped(address))
  {
    if address != "" && address[0] == '[' && |address| > 1 {
      var c := address[|address| - 1];
      assert address == "[" + address[1..|address| - 1] + [c];
    }
  }

  /** What `l` writes at the block at `i`, in the text of the lines. */
  ghost predicate Writes(lines: seq<string>, lines': seq<string>, l: Listener, i: int)
    requires |lines'| == |lines| && BlockAt(lines, l, i)
  {
    match l
    case Pipe(path) =>
      Rewritten(lines[i + 1], lines'[i + 1], "path:", " \"" + path + "\"")
    case Socket(address, port) =>
      && (exists bare ::
            Bare(address, bare) && Rewritten(lines[i + 1], lines'[i + 1], "address:", " \"" + bare + "\""))
      && Rewritten(lines[i + 2], lines'[i + 2], "port_value:", " " + port)
  }

  lemma CarriedIsWritten(lines: seq<string>, lines': seq<string>, l: Listener, i: nat)
    requires BlockAt(lines, l, i) && |lines'| == |lines| && Carries(lines, lines', l, i)
    ensures Writes(lines, lines', l, i)
  {
    match l
    case Pipe(path) =>
      PathWritten(lines[i + 1], path);
    case Socket(address, port) =>
      AddressWritten(lines[i + 1], address);
      PortWritten(lines[i + 2], port);
  }

  lemma PathWritten(line: string, path: string)
    requires Contains(line, PATH)
    ensures Rewritten(line, Substituted(line, PATH, Quoted(path)), "path:", " \"" + path + "\"")
  {
    SubstitutedIsRewritten(line, PATH, Quoted(path));
  }

  lemma AddressWritten(line: string, address: string)
    requires Contains(line, ADDRESS)
    ensures var bare := Stripped(address);
            && Bare(address, bare)
            && Rewritten(line, Substituted(line, ADDRESS, Quoted(bare)), "address:", " \"" + bare + "\"")
  {
    StrippedIsBare(address);
    SubstitutedIsRewritten(line, ADDRESS, Quoted(Stripped(address)));
  }

  lemma PortWritten(line: string, port: string)
    requires Contains(line, PORT_VALUE)
    ensures Rewritten(line, Substituted(line, PORT_VALUE, " " + port), "port_value:", " " + port)
  {
    SubstitutedIsRewritten(line, PORT_VALUE, " " + port);
  }

  /** On success every listener is written, in these texts, at its block of the original file. */
  lemma SuccessWrites(lines: seq<string>, listeners: seq<Listener>, k: nat)
    requires Settled(lines) && AllPlain(listeners) && k < |listeners|
    requires Rewrite(lines, listeners, 0).outcome.Updated?
    ensures var r := Rewrite(lines, listeners, 0);
            && |r.positions| == |listeners| && |r.lines| == |lines|
            && BlockAt(lines, listeners[k], r.positions[k])
            && Writes(lines, r.lines, listeners[k], r.positions[k])
  {
    var r := Rewrite(lines, listeners, 0);
    RewriteWrites(lines, listeners, 0);
    assert CarriesBlock(lines, r.lines, listeners[k], r.positions[k]);
    CarriedIsWritten(lines, r.lines, listeners[k], r.positions[k]);
  }

  // ---------------------------------------------------------------------------
  // Whole files

  lemma NoColonBefore(u: string, key: string, rest: string)
    requires key != "" && ':' !in u && key[|key| - 1] == ':' && (forall j :: 0 <= j < |key| - 1 ==> key[j] != ':')
    ensures forall j :: 0 <= j < |u| ==> !OccursAt(u + key + rest, key, j)
  {
    var line := u + key + rest;
    forall j | 0 <= j < |u| ensures !OccursAt(line, key, j) {
      var n := j + |key| - 1;
      assert line[n] != ':';
      if n < |line| { assert line[j..j + |key|][|key| - 1] == line[n]; }
    }
  }

  lemma ValueLineIs(u: string, key: string, rest: string, tail: string, value: string)
    requires key in KEYS && ':' !in u && '\n' !in rest && (tail == "" || tail[0] == '\n')
    ensures Contains(u + key + rest + tail, key)
    ensures Substituted(u + key + rest + tail, key, value) == u + key + value + tail
  {
    forall j | 0 <= j < |key| - 1 ensures key[j] != ':' { KeyShape(key, j); }
    KeyShape(key, |key| - 1);
    NoColonBefore(u, key, rest + tail);
    assert u + key + (rest + tail) == u + key + rest + tail;
    RewrittenIs(u, key, rest, tail, value);
  }

  lemma OneListener(lines: seq<string>, l: Listener)
    requires BlockAt(lines, l, 1) && (l.Socket? ==> l.address != "")
    ensures Rewrite(lines, [l], 0) == Result(Updated, Replaced(lines, l, 1), [1])
  {
    assert [l][1..] == [];
    assert Search(lines, l, 1) == Some(1);
    assert [1] + [] == [1];
  }

  /** A whole file with one socket block, for every indentation, old value, address in brackets and port. */
  lemma SocketFile(
    first: string, u0: string, v0: string, u1: string, old1: string, u2: string, old2: string, x: string, port: string)
    requires ':' !in u1 && ':' !in u2 && '\n' !in old1 && '\n' !in old2
    ensures var header := u0 + "socket_address:" + v0;
            Rewrite([first, header, u1 + "address:" + old1 + "\n", u2 + "port_value:" + old2 + "\n"],
                    [Socket("[" + x + "]", port)], 0) ==
            Result(Updated,
                   [first, header,
                    u1 + "address:" + (" \"" + x + "\"") + "\n", u2 + "port_value:" + (" " + port) + "\n"],
                   [1])
  {
    var l := Socket("[" + x + "]", port);
    var lines := [first, u0 + "socket_address:" + v0, u1 + "address:" + old1 + "\n", u2 + "port_value:" + old2 + "\n"];
    HasText(u0, SOCKET_ADDRESS, v0);
    ValueLineIs(u1, ADDRESS, old1, "\n", Quoted(x));
    ValueLineIs(u2, PORT_VALUE, old2, "\n", " " + port);
    OneListener(lines, l);
    assert Stripped("[" + x + "]") == x;
  }

  /** A whole file with one pipe block. */
  lemma PipeFile(first: string, u0: string, v0: string, u1: string, old1: string, path: string)
    requires ':' !in u1 && '\n' !in old1
    ensures Rewrite([first, u0 + "pipe:" + v0, u1 + "path:" + old1 + "\n"], [Pipe(path)], 0) ==
            Result(Updated, [first, u0 + "pipe:" + v0, u1 + "path:" + (" \"" + path + "\"") + "\n"], [1])
  {
    var lines := [first, u0 + "pipe:" + v0, u1 + "path:" + old1 + "\n"];
    HasText(u0, PIPE, v0);
    ValueLineIs(u1, PATH, old1, "\n", Quoted(path));
    OneListener(lines, Pipe(path));
  }
}
