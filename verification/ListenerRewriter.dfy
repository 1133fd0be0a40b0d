/**
 * The rewriting loop of socket_passing.py: each discovered listener is matched,
 * in order, to the next block of its kind in the lines of a YAML file, and the
 * value lines of that block are overwritten in place.
 */
module ListenerRewriter {
  import opened Options
  import opened Text

  const PIPE := "pipe:"
  const PATH := "path:"
  const SOCKET_ADDRESS := "socket_address:"
  const ADDRESS := "address:"
  const PORT_VALUE := "port_value:"
  const KEYS := {PIPE, PATH, SOCKET_ADDRESS, ADDRESS, PORT_VALUE}

  datatype Listener = Pipe(path: string) | Socket(address: string, port: string)

  datatype Outcome =
    | Updated
    | NoBlock       // "Failed to replace a discovered listener": returns False
    | EmptyAddress  // addr[0] raises IndexError

  // ---------------------------------------------------------------------------
  // Text

  /** The first occurrence at or after `from`. */
  function FirstFrom(line: string, key: string, from: nat): (i: nat)
    requires exists j :: from <= j <= |line| && OccursAt(line, key, j)
    ensures from <= i <= |line| && OccursAt(line, key, i)
    ensures forall j :: from <= j < i ==> !OccursAt(line, key, j)
    decreases |line| - from
  {
    if OccursAt(line, key, from) then from else FirstFrom(line, key, from + 1)
  }

  function First(line: string, key: string): (i: nat)
    requires Contains(line, key)
    ensures OccursAt(line, key, i) && forall j :: 0 <= j < i ==> !OccursAt(line, key, j)
  {
    FirstFrom(line, key, 0)
  }

  function UpToNewline(text: string): (head: string)
    ensures head <= text && '\n' !in head
    ensures |head| < |text| ==> text[|head|] == '\n'
  {
    if text == "" || text[0] == '\n' then "" else [text[0]] + UpToNewline(text[1..])
  }

  /** What follows the first occurrence of a key. */
  function After(line: string, key: string): string
    requires Contains(line, key)
  {
    line[First(line, key) + |key|..]
  }

  /** The value on a line: what follows the key, without the line end. */
  function ValueOf(line: string, key: string): string
    requires Contains(line, key)
  {
    UpToNewline(After(line, key))
  }

  /** re.sub(key + ".*", key + value, line): the dot stops at a line end. */
  function Substituted(line: string, key: string, value: string): string {
    if !Contains(line, key) then line
    else line[..First(line, key) + |key|] + value + After(line, key)[|ValueOf(line, key)|..]
  }

  function Quoted(text: string): string {
    " \"" + text + "\""
  }

  /** Python's address[1:-1] when the address starts with a bracket. */
  function Stripped(address: string): string {
    if address != "" && address[0] == '[' then (if |address| == 1 then "" else address[1..|address| - 1]) else address
  }

  // ---------------------------------------------------------------------------
  // Blocks and the search for them

  predicate BlockAt(lines: seq<string>, l: Listener, i: int) {
    match l
    case Pipe(_) =>
      0 <= i < |lines| - 1 && Contains(lines[i], PIPE) && Contains(lines[i + 1], PATH)
    case Socket(_, _) =>
      && 0 <= i < |lines| - 2 && Contains(lines[i], SOCKET_ADDRESS)
      && Contains(lines[i + 1], ADDRESS) && Contains(lines[i + 2], PORT_VALUE)
  }

  /** The first block for `l` at or after `from`. */
  function Search(lines: seq<string>, l: Listener, from: nat): (found: Option<nat>)
    ensures found.Some? ==> from <= found.value && BlockAt(lines, l, found.value)
    ensures forall j :: from <= j < (if found.Some? then found.value else |lines|) ==> !BlockAt(lines, l, j)
    decreases |lines| - from
  {
    if from >= |lines| then None
    else if BlockAt(lines, l, from) then Some(from)
    else Search(lines, l, from + 1)
  }

  function Replaced(lines: seq<string>, l: Listener, i: nat): (lines': seq<string>)
    requires BlockAt(lines, l, i)
    ensures |lines'| == |lines|
  {
    match l
    case Pipe(path) =>
      lines[i + 1 := Substituted(lines[i + 1], PATH, Quoted(path))]
    case Socket(address, port) =>
      lines[i + 1 := Substituted(lines[i + 1], ADDRESS, Quoted(Stripped(address)))]
           [i + 2 := Substituted(lines[i + 2], PORT_VALUE, " " + port)]
  }

  datatype Result = Result(outcome: Outcome, lines: seq<string>, positions: seq<nat>)

  /** The loop, from the position of the last match on. */
  function Rewrite(lines: seq<string>, listeners: seq<Listener>, index: nat): Result
    decreases listeners
  {
    if listeners == [] then Result(Updated, lines, []) else
    var l := listeners[0];
    if l.Socket? && l.address == "" then Result(EmptyAddress, lines, []) else
    var found := Search(lines, l, index + 1);
    if found.None? then Result(NoBlock, lines, []) else
    var rest := Rewrite(Replaced(lines, l, found.value), listeners[1..], found.value);
    rest.(positions := [found.value] + rest.positions)
  }

  /** The code: `rawYaml` is overwritten in place, also when a later listener has no block. */
  method UpdateListeners(rawYaml: array<string>, listeners: seq<Listener>)
    returns (outcome: Outcome, positions: seq<nat>)
    modifies rawYaml
    ensures Result(outcome, rawYaml[..], positions) == Rewrite(old(rawYaml[..]), listeners, 0)
  {
    var index := 0;
    var todo := listeners;
    positions := [];
    ghost var whole := Rewrite(rawYaml[..], listeners, 0);
    while todo != []
      invariant whole == Prefixed(positions, Rewrite(rawYaml[..], todo, index))
    {
      var stop;
      stop, index := UpdateNext(rawYaml, todo, index, positions, whole);
      if stop.Some? {
        return stop.value, positions;
      }
      positions, todo := positions + [index], todo[1..];
    }
    RewriteStops(positions, rawYaml[..], todo, index);
    return Updated, positions;
  }

  /** The body of the loop: `stop` is the outcome if the loop ends here. */
  method UpdateNext(
    rawYaml: array<string>, todo: seq<Listener>, index: nat, ghost positions: seq<nat>, ghost whole: Result)
    returns (stop: Option<Outcome>, index': nat)
    requires todo != [] && whole == Prefixed(positions, Rewrite(rawYaml[..], todo, index))
    modifies rawYaml
    ensures stop.Some? ==> whole == Result(stop.value, rawYaml[..], positions)
    ensures stop.None? ==> whole == Prefixed(positions + [index'], Rewrite(rawYaml[..], todo[1..], index'))
  {
    var l := todo[0];
    RewriteStops(positions, rawYaml[..], todo, index);
    if l.Socket? && l.address == "" {
      return Some(EmptyAddress), index;
    }
    ghost var before := rawYaml[..];
    var found := UpdateOne(rawYaml, l, index + 1);
    if found.None? {
      return Some(NoBlock), index;
    }
    RewriteStep(positions, before, todo, index, found.value);
    return None, found.value;
  }

  ghost function Prefixed(positions: seq<nat>, r: Result): Result {
    r.(positions := positions + r.positions)
  }

  /** The three ways in which the loop ends. */
  lemma RewriteStops(positions: seq<nat>, lines: seq<string>, listeners: seq<Listener>, index: nat)
    ensures listeners == [] ==>
              Prefixed(positions, Rewrite(lines, listeners, index)) == Result(Updated, lines, positions)
    ensures listeners != [] && listeners[0].Socket? && listeners[0].address == "" ==>
              Prefixed(positions, Rewrite(lines, listeners, index)) == Result(EmptyAddress, lines, positions)
    ensures listeners != [] && !(listeners[0].Socket? && listeners[0].address == "")
            && Search(lines, listeners[0], index + 1).None? ==>
              Prefixed(positions, Rewrite(lines, listeners, index)) == Result(NoBlock, lines, positions)
  {
    assert positions + [] == positions;
  }

  lemma RewriteStep(positions: seq<nat>, lines: seq<string>, listeners: seq<Listener>, index: nat, i: nat)
    requires listeners != [] && !(listeners[0].Socket? && listeners[0].address == "")
    requires Search(lines, listeners[0], index + 1) == Some(i)
    ensures Prefixed(positions, Rewrite(lines, listeners, index)) ==
            Prefixed(positions + [i], Rewrite(Replaced(lines, listeners[0], i), listeners[1..], i))
  {
    var rest := Rewrite(Replaced(lines, listeners[0], i), listeners[1..], i);
    assert positions + ([i] + rest.positions) == positions + [i] + rest.positions;
  }

  method UpdateOne(rawYaml: array<string>, l: Listener, from: nat) returns (found: Option<nat>)
    modifies rawYaml
    ensures found == Search(old(rawYaml[..]), l, from)
    ensures rawYaml[..] == if found.Some? then Replaced(old(rawYaml[..]), l, found.value) else old(rawYaml[..])
  {
    found := FindBlock(rawYaml, l, from);
    if found.Some? {
      ReplaceAt(rawYaml, l, found.value);
    }
  }

  /** The two inner loops, over range(index + 1, len - 1) and range(index + 1, len - 2). */
  method FindBlock(rawYaml: array<string>, l: Listener, from: nat) returns (found: Option<nat>)
    ensures found == Search(rawYaml[..], l, from)
  {
    var i := from;
    var end := if l.Pipe? then rawYaml.Length - 1 else rawYaml.Length - 2;
    while i < end
      invariant Search(rawYaml[..], l, from) == Search(rawYaml[..], l, i)
    {
      if l.Pipe? && Contains(rawYaml[i], PIPE) && Contains(rawYaml[i + 1], PATH) {
        return Some(i);
      }
      if l.Socket? && Contains(rawYaml[i], SOCKET_ADDRESS) && Contains(rawYaml[i + 1], ADDRESS)
         && Contains(rawYaml[i + 2], PORT_VALUE) {
        return Some(i);
      }
      i := i + 1;
    }
    return None;
  }

  method ReplaceAt(rawYaml: array<string>, l: Listener, i: nat)
    requires BlockAt(rawYaml[..], l, i)
    modifies rawYaml
    ensures rawYaml[..] == Replaced(old(rawYaml[..]), l, i)
  {
    match l
    case Pipe(path) =>
      rawYaml[i + 1] := Substituted(rawYaml[i + 1], PATH, Quoted(path));
    case Socket(address, port) =>
      rawYaml[i + 1] := Substituted(rawYaml[i + 1], ADDRESS, Quoted(Stripped(address)));
      rawYaml[i + 2] := Substituted(rawYaml[i + 2], PORT_VALUE, " " + port);
  }
}
