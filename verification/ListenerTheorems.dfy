/**
 * What the listener rewriter guarantees: it is a complete and leftmost matching
 * of the listeners to the blocks of the original file, and it changes exactly
 * the matched values.
 */
module ListenerTheorems {
  import opened Options
  import opened Text
  import opened ListenerRewriter
  import opened ListenerLines

  // ---------------------------------------------------------------------------
  // The matching is complete and leftmost

  /** Strictly increasing positions, from `from` on, at which each listener has a block. */
  ghost predicate Assignment(lines: seq<string>, listeners: seq<Listener>, from: nat, ps: seq<nat>) {
    && |ps| == |listeners|
    && (forall k :: 0 <= k < |ps| ==> from <= ps[k] && BlockAt(lines, listeners[k], ps[k]))
    && (forall j, k :: 0 <= j < k < |ps| ==> ps[j] < ps[k])
  }

  ghost predicate AllPlain(listeners: seq<Listener>) {
    forall k :: 0 <= k < |listeners| ==> Plain(listeners[k])
  }

  ghost predicate HasAddresses(listeners: seq<Listener>) {
    forall k :: 0 <= k < |listeners| ==> listeners[k].Socket? ==> listeners[k].address != ""
  }

  lemma AssignmentShape(lines: seq<string>, lines': seq<string>, listeners: seq<Listener>, from: nat, ps: seq<nat>)
    requires SameShape(lines, lines')
    ensures Assignment(lines', listeners, from, ps) <==> Assignment(lines, listeners, from, ps)
  {
    forall k | 0 <= k < |ps| && |ps| == |listeners|
      ensures BlockAt(lines', listeners[k], ps[k]) <==> BlockAt(lines, listeners[k], ps[k])
    {
      BlockAtShape(lines, lines', listeners[k], ps[k]);
    }
  }

  lemma AssignmentCons(lines: seq<string>, listeners: seq<Listener>, from: nat, i: nat, rest: seq<nat>)
    requires listeners != [] && from <= i && BlockAt(lines, listeners[0], i)
    requires Assignment(lines, listeners[1..], i + 1, rest)
    ensures Assignment(lines, listeners, from, [i] + rest)
  {
    var ps := [i] + rest;
    forall k | 0 <= k < |ps| ensures from <= ps[k] && BlockAt(lines, listeners[k], ps[k]) {
      if k > 0 { assert listeners[k] == listeners[1..][k - 1] && ps[k] == rest[k - 1]; }
    }
  }

  lemma AssignmentTail(lines: seq<string>, listeners: seq<Listener>, from: nat, ps: seq<nat>, i: nat)
    requires listeners != [] && Assignment(lines, listeners, from, ps) && i <= ps[0]
    ensures Assignment(lines, listeners[1..], i + 1, ps[1..])
  {
    forall k | 0 <= k < |ps| - 1 ensures i + 1 <= ps[1..][k] && BlockAt(lines, listeners[1..][k], ps[1..][k]) {
      assert ps[0] < ps[k + 1] && BlockAt(lines, listeners[k + 1], ps[k + 1]);
    }
  }

  /** What the first match does, as long as there is one. */
  lemma FirstMatch(lines: seq<string>, listeners: seq<Listener>, index: nat, i: nat)
    requires Settled(lines) && AllPlain(listeners) && listeners != []
    requires listeners[0].Socket? ==> listeners[0].address != ""
    requires Search(lines, listeners[0], index + 1) == Some(i)
    ensures index < i && BlockAt(lines, listeners[0], i)
    ensures var lines1 := Replaced(lines, listeners[0], i);
            && Settled(lines1) && SameShape(lines, lines1) && AllPlain(listeners[1..])
            && var rest := Rewrite(lines1, listeners[1..], i);
               Rewrite(lines, listeners, index) == Result(rest.outcome, rest.lines, [i] + rest.positions)
  {
    assert Plain(listeners[0]);
    ReplacedShape(lines, listeners[0], i);
  }

  /** Success needs a first match, and success after it. */
  lemma FirstOfSuccess(lines: seq<string>, listeners: seq<Listener>, index: nat) returns (i: nat)
    requires listeners != [] && Rewrite(lines, listeners, index).outcome.Updated?
    ensures listeners[0].Socket? ==> listeners[0].address != ""
    ensures Search(lines, listeners[0], index + 1) == Some(i) && BlockAt(lines, listeners[0], i)
    ensures Rewrite(Replaced(lines, listeners[0], i), listeners[1..], i).outcome.Updated?
  {
    i := Search(lines, listeners[0], index + 1).value;
  }

  /** Success yields an assignment to the blocks of the original file. */
  lemma {:induction false} SuccessIsAssignment(lines: seq<string>, listeners: seq<Listener>, index: nat)
    requires Settled(lines) && AllPlain(listeners)
    requires Rewrite(lines, listeners, index).outcome.Updated?
    ensures HasAddresses(listeners)
    ensures Assignment(lines, listeners, index + 1, Rewrite(lines, listeners, index).positions)
    decreases listeners
  {
    if listeners == [] {
      NobodyIsAssigned(lines, listeners, index);
    } else {
      var i := FirstOfSuccess(lines, listeners, index);
      var lines1 := Replaced(lines, listeners[0], i);
      FirstMatch(lines, listeners, index, i);
      SuccessIsAssignment(lines1, listeners[1..], i);
      AssignmentBack(lines, lines1, listeners, index + 1, i, Rewrite(lines1, listeners[1..], i).positions);
      AddressesCons(listeners);
    }
  }

  lemma NobodyIsAssigned(lines: seq<string>, listeners: seq<Listener>, index: nat)
    requires listeners == []
    ensures HasAddresses(listeners)
    ensures Assignment(lines, listeners, index + 1, Rewrite(lines, listeners, index).positions)
  {}

  lemma AssignmentBack(
    lines: seq<string>, lines1: seq<string>, listeners: seq<Listener>, from: nat, i: nat, rest: seq<nat>)
    requires SameShape(lines, lines1) && listeners != [] && from <= i && BlockAt(lines, listeners[0], i)
    requires Assignment(lines1, listeners[1..], i + 1, rest)
    ensures Assignment(lines, listeners, from, [i] + rest)
  {
    AssignmentShape(lines, lines1, listeners[1..], i + 1, rest);
    AssignmentCons(lines, listeners, from, i, rest);
  }

  lemma AddressesCons(listeners: seq<Listener>)
    requires listeners != []
    ensures HasAddresses(listeners) <==>
              (listeners[0].Socket? ==> listeners[0].address != "") && HasAddresses(listeners[1..])
  {
    assert forall k :: 0 < k < |listeners| ==> listeners[k] == listeners[1..][k - 1];
  }

  lemma SearchFinds(lines: seq<string>, l: Listener, from: nat, p: nat)
    requires from <= p && BlockAt(lines, l, p)
    ensures Search(lines, l, from).Some? && Search(lines, l, from).value <= p
  {
    assert p < |lines|;
  }

  ghost predicate NoLater(ps: seq<nat>, qs: seq<nat>) {
    |ps| == |qs| && forall k :: 0 <= k < |ps| ==> ps[k] <= qs[k]
  }

  lemma NoLaterCons(i: nat, rest: seq<nat>, qs: seq<nat>)
    requires qs != [] && i <= qs[0] && NoLater(rest, qs[1..])
    ensures NoLater([i] + rest, qs)
  {
    assert forall k :: 0 < k < |qs| ==> qs[k] == qs[1..][k - 1];
  }

  /** The first match comes no later than an assignment's, whose rest is still an assignment after it. */
  lemma FirstNoLater(lines: seq<string>, listeners: seq<Listener>, from: nat, ps: seq<nat>) returns (i: nat)
    requires Settled(lines) && AllPlain(listeners) && listeners != [] && Assignment(lines, listeners, from, ps)
    ensures Search(lines, listeners[0], from) == Some(i) && i <= ps[0] && BlockAt(lines, listeners[0], i)
    ensures Assignment(Replaced(lines, listeners[0], i), listeners[1..], i + 1, ps[1..])
  {
    assert BlockAt(lines, listeners[0], ps[0]);
    SearchFinds(lines, listeners[0], from, ps[0]);
    i := Search(lines, listeners[0], from).value;
    AssignmentTail(lines, listeners, from, ps, i);
    assert Plain(listeners[0]);
    ReplacedShape(lines, listeners[0], i);
    AssignmentShape(lines, Replaced(lines, listeners[0], i), listeners[1..], i + 1, ps[1..]);
  }

  /** If any assignment exists the loop succeeds, at positions no later than that assignment's. */
  lemma {:induction false} LeftmostSuccess(lines: seq<string>, listeners: seq<Listener>, index: nat, ps: seq<nat>)
    requires Settled(lines) && AllPlain(listeners) && HasAddresses(listeners)
    requires Assignment(lines, listeners, index + 1, ps)
    ensures Rewrite(lines, listeners, index).outcome.Updated?
    ensures NoLater(Rewrite(lines, listeners, index).positions, ps)
    decreases listeners
  {
    if listeners != [] {
      var i := FirstNoLater(lines, listeners, index + 1, ps);
      AddressesCons(listeners);
      FirstMatch(lines, listeners, index, i);
      var lines1 := Replaced(lines, listeners[0], i);
      LeftmostSuccess(lines1, listeners[1..], i, ps[1..]);
      NoLaterCons(i, Rewrite(lines1, listeners[1..], i).positions, ps);
    }
  }

  /**
   * The loop succeeds if and only if the listeners can be assigned, in order,
   * to blocks of their own kind after the first line, and each has an address
   * where it needs one; and it then picks the least position for every listener.
   */
  lemma SucceedsIffAssignable(lines: seq<string>, listeners: seq<Listener>)
    requires Settled(lines) && AllPlain(listeners)
    ensures Rewrite(lines, listeners, 0).outcome.Updated? <==>
            HasAddresses(listeners) && exists ps :: Assignment(lines, listeners, 1, ps)
    ensures Rewrite(lines, listeners, 0).outcome.Updated? ==>
              Leftmost(lines, listeners, Rewrite(lines, listeners, 0).positions)
  {
    if Rewrite(lines, listeners, 0).outcome.Updated? {
      SuccessIsLeftmost(lines, listeners);
    } else if HasAddresses(listeners) {
      forall ps ensures !Assignment(lines, listeners, 1, ps) {
        FailureHasNoAssignment(lines, listeners, ps);
      }
    }
  }

  lemma SuccessIsLeftmost(lines: seq<string>, listeners: seq<Listener>)
    requires Settled(lines) && AllPlain(listeners) && Rewrite(lines, listeners, 0).outcome.Updated?
    ensures HasAddresses(listeners) && Leftmost(lines, listeners, Rewrite(lines, listeners, 0).positions)
  {
    SuccessIsAssignment(lines, listeners, 0);
    forall qs | Assignment(lines, listeners, 1, qs) ensures NoLater(Rewrite(lines, listeners, 0).positions, qs) {
      LeftmostSuccess(lines, listeners, 0, qs);
    }
  }

  lemma FailureHasNoAssignment(lines: seq<string>, listeners: seq<Listener>, ps: seq<nat>)
    requires Settled(lines) && AllPlain(listeners) && HasAddresses(listeners)
    requires !Rewrite(lines, listeners, 0).outcome.Updated?
    ensures !Assignment(lines, listeners, 1, ps)
  {
    if Assignment(lines, listeners, 1, ps) {
      LeftmostSuccess(lines, listeners, 0, ps);
    }
  }

  /** An assignment that is pointwise the least of all. */
  ghost predicate Leftmost(lines: seq<string>, listeners: seq<Listener>, ps: seq<nat>) {
    Assignment(lines, listeners, 1, ps) && forall qs :: Assignment(lines, listeners, 1, qs) ==> NoLater(ps, qs)
  }

  // ---------------------------------------------------------------------------
  // What is written

  /** The lines that a match overwrites. */
  function Writes(l: Listener, i: int): set<int> {
    if l.Pipe? then {i + 1} else {i + 1, i + 2}
  }

  /** The value lines of the block at `i` have been given the values of `l`, and nothing else. */
  ghost predicate Carries(lines: seq<string>, lines': seq<string>, l: Listener, i: int)
    requires BlockAt(lines, l, i) && |lines'| == |lines|
  {
    match l
    case Pipe(path) =>
      lines'[i + 1] == Substituted(lines[i + 1], PATH, Quoted(path))
    case Socket(address, port) =>
      && lines'[i + 1] == Substituted(lines[i + 1], ADDRESS, Quoted(Stripped(address)))
      && lines'[i + 2] == Substituted(lines[i + 2], PORT_VALUE, " " + port)
  }

  lemma WritesDisjoint(lines: seq<string>, l: Listener, i: int, l': Listener, i': int)
    requires Settled(lines) && BlockAt(lines, l, i) && BlockAt(lines, l', i') && i < i'
    ensures Writes(l, i) !! Writes(l', i')
  {
    if l.Socket? { PortLineIsOnlyThat(lines, l, i, l'); }
  }

  /** The port line of a block is not the first value line of another. */
  lemma PortLineIsOnlyThat(lines: seq<string>, l: Listener, i: int, l': Listener)
    requires Settled(lines) && BlockAt(lines, l, i) && l.Socket?
    ensures !BlockAt(lines, l', i + 1)
  {
    if BlockAt(lines, l', i + 1) {
      assert ValuesKept(lines, l, i) && ValuesKept(lines, l', i + 1);
      assert Kept(lines[i + 2], ValueKey(l, 2)) && Kept(lines[(i + 1) + 1], ValueKey(l', 1));
      ValueKeyIs(l', 1);
      SameValueKey(lines[i + 2], ValueKey(l, 2), ValueKey(l', 1));
    }
  }

  ghost predicate Untouched(listeners: seq<Listener>, ps: seq<nat>, j: int)
    requires |ps| == |listeners|
  {
    forall k :: 0 <= k < |ps| ==> j !in Writes(listeners[k], ps[k])
  }

  lemma UntouchedCons(listeners: seq<Listener>, i: nat, rest: seq<nat>, j: int)
    requires |listeners| == |rest| + 1
    ensures Untouched(listeners, [i] + rest, j) <==> j !in Writes(listeners[0], i) && Untouched(listeners[1..], rest, j)
  {
    var ps := [i] + rest;
    if Untouched(listeners, ps, j) {
      assert j !in Writes(listeners[0], ps[0]);
      forall k | 0 <= k < |rest| ensures j !in Writes(listeners[1..][k], rest[k]) {
        assert j !in Writes(listeners[k + 1], ps[k + 1]);
      }
    }
    if j !in Writes(listeners[0], i) && Untouched(listeners[1..], rest, j) {
      forall k | 0 < k < |ps| ensures j !in Writes(listeners[k], ps[k]) {
        assert j !in Writes(listeners[1..][k - 1], rest[k - 1]);
      }
    }
  }

  /** There is a block for `l` at `i`, and it carries the values of `l`. */
  ghost predicate CarriesBlock(lines: seq<string>, lines': seq<string>, l: Listener, i: int) {
    BlockAt(lines, l, i) && |lines'| == |lines| && Carries(lines, lines', l, i)
  }

  /** Every matched block carries its listener. */
  ghost predicate CarriesAll(lines: seq<string>, lines': seq<string>, listeners: seq<Listener>, ps: seq<nat>) {
    |ps| == |listeners| && forall k :: 0 <= k < |ps| ==> CarriesBlock(lines, lines', listeners[k], ps[k])
  }

  /** Every line that no match writes is as before. */
  ghost predicate KeepsRest(lines: seq<string>, lines': seq<string>, listeners: seq<Listener>, ps: seq<nat>)
    requires |ps| == |listeners| && |lines'| == |lines|
  {
    forall j :: 0 <= j < |lines| && Untouched(listeners, ps, j) ==> lines'[j] == lines[j]
  }

  lemma ReplacedCarries(lines: seq<string>, l: Listener, i: nat)
    requires BlockAt(lines, l, i)
    ensures Carries(lines, Replaced(lines, l, i), l, i)
    ensures forall j :: 0 <= j < |lines| && j !in Writes(l, i) ==> Replaced(lines, l, i)[j] == lines[j]
  {}

  /** Only the lines of the block matter. */
  lemma CarriesLocal(a: seq<string>, a': seq<string>, b: seq<string>, b': seq<string>, l: Listener, i: nat)
    requires |a| == |b| == |a'| == |b'| && BlockAt(a, l, i) && BlockAt(b, l, i) && Carries(a, a', l, i)
    requires forall j :: j in Writes(l, i) ==> a[j] == b[j] && a'[j] == b'[j]
    ensures Carries(b, b', l, i)
  {
    assert i + 1 in Writes(l, i) && (l.Socket? ==> i + 2 in Writes(l, i));
  }

  lemma AssignmentAt(lines: seq<string>, listeners: seq<Listener>, i: nat, rest: seq<nat>, k: nat)
    requires Assignment(lines, listeners, 0, [i] + rest) && k < |rest|
    ensures i < rest[k] && BlockAt(lines, listeners[0], i) && BlockAt(lines, listeners[k + 1], rest[k])
  {
    var ps := [i] + rest;
    assert ps[0] < ps[k + 1] && BlockAt(lines, listeners[0], ps[0]) && BlockAt(lines, listeners[k + 1], ps[k + 1]);
  }

  /** No later match overwrites what the first one wrote. */
  lemma FirstUntouched(lines: seq<string>, listeners: seq<Listener>, i: nat, rest: seq<nat>, j: int)
    requires Settled(lines) && Assignment(lines, listeners, 0, [i] + rest) && j in Writes(listeners[0], i)
    ensures Untouched(listeners[1..], rest, j)
  {
    forall k | 0 <= k < |rest| ensures j !in Writes(listeners[1..][k], rest[k]) {
      AssignmentAt(lines, listeners, i, rest, k);
      WritesDisjoint(lines, listeners[0], i, listeners[k + 1], rest[k]);
    }
  }

  /** What was carried to a later block was carried to it from the original lines. */
  lemma CarriedFromOriginal(lines: seq<string>, lines': seq<string>, l: Listener, i: nat, l': Listener, p: nat)
    requires Settled(lines) && BlockAt(lines, l, i) && BlockAt(lines, l', p) && i < p && |lines'| == |lines|
    requires BlockAt(Replaced(lines, l, i), l', p) && Carries(Replaced(lines, l, i), lines', l', p)
    ensures Carries(lines, lines', l', p)
  {
    WritesDisjoint(lines, l, i, l', p);
    ReplacedCarries(lines, l, i);
    CarriesLocal(Replaced(lines, l, i), lines', lines, lines', l', p);
  }

  lemma LaterCarries(
    lines: seq<string>, lines1: seq<string>, lines': seq<string>, listeners: seq<Listener>, i: nat, rest: seq<nat>,
    k: nat)
    requires Settled(lines) && Assignment(lines, listeners, 0, [i] + rest) && k < |rest|
    requires BlockAt(lines, listeners[0], i) && lines1 == Replaced(lines, listeners[0], i)
    requires CarriesBlock(lines1, lines', listeners[k + 1], rest[k])
    ensures CarriesBlock(lines, lines', listeners[k + 1], rest[k])
  {
    AssignmentAt(lines, listeners, i, rest, k);
    CarriedFromOriginal(lines, lines', listeners[0], i, listeners[k + 1], rest[k]);
  }

  lemma FirstCarries(
    lines: seq<string>, lines1: seq<string>, lines': seq<string>, listeners: seq<Listener>, i: nat, rest: seq<nat>)
    requires Settled(lines) && Assignment(lines, listeners, 0, [i] + rest) && |lines'| == |lines|
    requires BlockAt(lines, listeners[0], i) && lines1 == Replaced(lines, listeners[0], i)
    requires KeepsRest(lines1, lines', listeners[1..], rest)
    ensures Carries(lines, lines', listeners[0], i)
  {
    ReplacedCarries(lines, listeners[0], i);
    forall j | j in Writes(listeners[0], i) ensures lines'[j] == lines1[j] {
      FirstUntouched(lines, listeners, i, rest, j);
    }
    CarriesLocal(lines, lines1, lines, lines', listeners[0], i);
  }

  lemma CarriesAllFrom(lines: seq<string>, lines': seq<string>, listeners: seq<Listener>, i: nat, rest: seq<nat>)
    requires |listeners| == |rest| + 1 && CarriesBlock(lines, lines', listeners[0], i)
    requires forall k :: 0 <= k < |rest| ==> CarriesBlock(lines, lines', listeners[k + 1], rest[k])
    ensures CarriesAll(lines, lines', listeners, [i] + rest)
  {
    var ps := [i] + rest;
    forall k | 0 <= k < |ps| ensures CarriesBlock(lines, lines', listeners[k], ps[k]) {
      if k > 0 { assert CarriesBlock(lines, lines', listeners[(k - 1) + 1], rest[k - 1]); }
    }
  }

  lemma CarriesAllCons(
    lines: seq<string>, lines1: seq<string>, lines': seq<string>, listeners: seq<Listener>, i: nat, rest: seq<nat>)
    requires Settled(lines) && Assignment(lines, listeners, 0, [i] + rest) && |lines'| == |lines|
    requires BlockAt(lines, listeners[0], i) && lines1 == Replaced(lines, listeners[0], i)
    requires KeepsRest(lines1, lines', listeners[1..], rest) && CarriesAll(lines1, lines', listeners[1..], rest)
    ensures CarriesAll(lines, lines', listeners, [i] + rest)
  {
    FirstCarries(lines, lines1, lines', listeners, i, rest);
    forall k | 0 <= k < |rest| ensures CarriesBlock(lines, lines', listeners[k + 1], rest[k]) {
      assert CarriesBlock(lines1, lines', listeners[1..][k], rest[k]);
      LaterCarries(lines, lines1, lines', listeners, i, rest, k);
    }
    CarriesAllFrom(lines, lines', listeners, i, rest);
  }

  lemma KeepsRestCons(
    lines: seq<string>, lines1: seq<string>, lines': seq<string>, listeners: seq<Listener>, i: nat, rest: seq<nat>)
    requires listeners != [] && BlockAt(lines, listeners[0], i) && lines1 == Replaced(lines, listeners[0], i)
    requires |listeners| == |rest| + 1 && |lines'| == |lines| && KeepsRest(lines1, lines', listeners[1..], rest)
    ensures KeepsRest(lines, lines', listeners, [i] + rest)
  {
    ReplacedCarries(lines, listeners[0], i);
    forall j | 0 <= j < |lines| && Untouched(listeners, [i] + rest, j) ensures lines'[j] == lines[j] {
      UntouchedCons(listeners, i, rest, j);
    }
  }

  ghost predicate IncreasingFrom(ps: seq<nat>, from: nat) {
    (forall k :: 0 <= k < |ps| ==> from <= ps[k]) && forall j, k :: 0 <= j < k < |ps| ==> ps[j] < ps[k]
  }

  lemma IncreasingCons(i: nat, rest: seq<nat>, from: nat)
    requires from <= i && IncreasingFrom(rest, i + 1)
    ensures IncreasingFrom([i] + rest, from)
  {}

  /**
   * For every file and all listeners, and also when a listener has no block: one
   * position is picked for each listener up to the failure, they increase, and
   * every line that is not a value line at one of them is as it was.
   */
  lemma {:induction false} OnlyMatchedLinesChange(lines: seq<string>, listeners: seq<Listener>, index: nat)
    ensures var r := Rewrite(lines, listeners, index);
            && |r.positions| <= |listeners| && |r.lines| == |lines|
            && (r.outcome.Updated? <==> |r.positions| == |listeners|)
            && IncreasingFrom(r.positions, index + 1)
            && KeepsRest(lines, r.lines, listeners[..|r.positions|], r.positions)
    decreases listeners
  {
    var r := Rewrite(lines, listeners, index);
    if r.positions != [] {
      var i := r.positions[0];
      var lines1 := Replaced(lines, listeners[0], i);
      var rest := Rewrite(lines1, listeners[1..], i);
      OnlyMatchedLinesChange(lines1, listeners[1..], i);
      IncreasingCons(i, rest.positions, index + 1);
      KeepsRestOfSome(lines, lines1, r.lines, listeners, i, rest.positions);
    } else {
      assert listeners[..0] == [];
    }
  }

  /** The first listener without a position has no address, or no block for it is left after the last position. */
  ghost predicate FailsAt(listeners: seq<Listener>, index: nat, r: Result) {
    && |r.positions| < |listeners|
    && var l := listeners[|r.positions|];
       var last := if r.positions == [] then index else r.positions[|r.positions| - 1];
       if l.Socket? && l.address == "" then r.outcome == EmptyAddress
       else r.outcome == NoBlock && forall i :: i > last ==> !BlockAt(r.lines, l, i)
  }

  lemma FailsCons(listeners: seq<Listener>, index: nat, i: nat, rest: Result)
    requires listeners != [] && FailsAt(listeners[1..], i, rest)
    ensures FailsAt(listeners, index, rest.(positions := [i] + rest.positions))
  {
    assert listeners[1..][|rest.positions|] == listeners[|rest.positions| + 1];
  }

  lemma FailsNow(lines: seq<string>, l: Listener, index: nat)
    requires Search(lines, l, index + 1).None?
    ensures forall i :: i > index ==> !BlockAt(lines, l, i)
  {}

  /** How the loop fails, if it does. */
  lemma {:induction false} FailureOutcome(lines: seq<string>, listeners: seq<Listener>, index: nat)
    requires !Rewrite(lines, listeners, index).outcome.Updated?
    ensures FailsAt(listeners, index, Rewrite(lines, listeners, index))
    decreases listeners
  {
    var l := listeners[0];
    if !(l.Socket? && l.address == "") {
      var found := Search(lines, l, index + 1);
      if found.None? {
        FailsNow(lines, l, index);
      } else {
        var rest := Rewrite(Replaced(lines, l, found.value), listeners[1..], found.value);
        FailureOutcome(Replaced(lines, l, found.value), listeners[1..], found.value);
        FailsCons(listeners, index, found.value, rest);
      }
    }
  }

  lemma KeepsRestOfSome(
    lines: seq<string>, lines1: seq<string>, lines': seq<string>, listeners: seq<Listener>, i: nat, rest: seq<nat>)
    requires |rest| < |listeners| && BlockAt(lines, listeners[0], i) && lines1 == Replaced(lines, listeners[0], i)
    requires |lines'| == |lines| && KeepsRest(lines1, lines', listeners[1..][..|rest|], rest)
    ensures KeepsRest(lines, lines', listeners[..|rest| + 1], [i] + rest)
  {
    var n := |rest|;
    assert listeners[..n + 1][1..] == listeners[1..][..n];
    KeepsRestCons(lines, lines1, lines', listeners[..n + 1], i, rest);
  }

  /**
   * On success the k-th matched block carries the k-th listener's values, and
   * every line outside the value lines of the matched blocks is as it was.
   */
  lemma {:induction false} RewriteWrites(lines: seq<string>, listeners: seq<Listener>, index: nat)
    requires Settled(lines) && AllPlain(listeners)
    requires Rewrite(lines, listeners, index).outcome.Updated?
    ensures var r := Rewrite(lines, listeners, index);
            && Assignment(lines, listeners, 0, r.positions) && |r.lines| == |lines|
            && CarriesAll(lines, r.lines, listeners, r.positions)
            && KeepsRest(lines, r.lines, listeners, r.positions)
    decreases listeners
  {
    SuccessIsAssignment(lines, listeners, index);
    if listeners != [] {
      var i := FirstOfSuccess(lines, listeners, index);
      FirstMatch(lines, listeners, index, i);
      var lines1 := Replaced(lines, listeners[0], i);
      var r := Rewrite(lines1, listeners[1..], i);
      RewriteWrites(lines1, listeners[1..], i);
      CarriesAllCons(lines, lines1, r.lines, listeners, i, r.positions);
      KeepsRestCons(lines, lines1, r.lines, listeners, i, r.positions);
    }
  }

  /** Reading the values back from a rewritten block gives the listener's. */
  lemma CarriesReadsBack(lines: seq<string>, lines': seq<string>, l: Listener, i: nat, d: nat)
    requires BlockAt(lines, l, i) && |lines'| == |lines| && Carries(lines, lines', l, i) && 1 <= d <= Width(l)
    ensures Contains(lines'[i + d], ValueKey(l, d))
    ensures '\n' !in NewValue(l, d) ==> ValueOf(lines'[i + d], ValueKey(l, d)) == NewValue(l, d)
  {
    CarriesAt(lines, lines', l, i, d);
    SubstitutedLine(lines[i + d], ValueKey(l, d), NewValue(l, d));
  }

  lemma CarriesAt(lines: seq<string>, lines': seq<string>, l: Listener, i: nat, d: nat)
    requires BlockAt(lines, l, i) && |lines'| == |lines| && Carries(lines, lines', l, i) && 1 <= d <= Width(l)
    ensures i + d < |lines| && Contains(lines[i + d], ValueKey(l, d))
    ensures lines'[i + d] == Substituted(lines[i + d], ValueKey(l, d), NewValue(l, d))
  {
    if l.Socket? && d == 2 {
      assert Contains(lines[i + 2], PORT_VALUE);
    }
  }
}
