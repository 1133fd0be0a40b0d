/**
 * The slots of custom inline headers. There is one registry for each concrete
 * header map type; this is such a registry, with the lower-case names it uses.
 */
module InlineHeaders {
  import opened Options

  // ---------------------------------------------------------------------------
  // Names

  /** No embedded NUL, CR or LF. */
  predicate Valid(s: string) {
    forall i :: 0 <= i < |s| ==> s[i] != '\0' && s[i] != '\r' && s[i] != '\n'
  }

  method ValidHeaderString(s: string) returns (valid: bool)
    ensures valid <==> Valid(s)
  {
    for i := 0 to |s|
      invariant Valid(s[..i])
    {
      if s[i] == '\0' || s[i] == '\r' || s[i] == '\n' {
        return false;
      }
      assert forall j :: 0 <= j < i ==> s[j] == s[..i][j];
    }
    assert s[..|s|] == s;
    return true;
  }

  function ToLower(c: char): char {
    if 'A' <= c <= 'Z' then (c as int + 32) as char else c
  }

  function Lower(s: string): (r: string)
    ensures |r| == |s| && forall i :: 0 <= i < |s| ==> r[i] == ToLower(s[i])
  {
    seq(|s|, i requires 0 <= i < |s| => ToLower(s[i]))
  }

  /** The in-place transformation of LowerCaseString::lower. */
  method LowerInPlace(text: array<char>)
    modifies text
    ensures text[..] == Lower(old(text[..]))
  {
    for i := 0 to text.Length
      invariant forall j :: 0 <= j < i ==> text[j] == ToLower(old(text[j]))
      invariant forall j :: i <= j < text.Length ==> text[j] == old(text[j])
    {
      text[i] := ToLower(text[i]);
    }
  }

  /** Two characters that are the same letter of the alphabet, or the same. */
  ghost predicate SameLetter(c: char, d: char) {
    || c == d
    || ('A' <= c <= 'Z' && d as int == c as int + 32)
    || ('A' <= d <= 'Z' && c as int == d as int + 32)
  }

  /** Field names are compared without regard to the case of letters. */
  ghost predicate SameName(a: string, b: string) {
    |a| == |b| && forall i :: 0 <= i < |a| ==> SameLetter(a[i], b[i])
  }

  /** Lower-case names are equal exactly when the names are equal up to case. */
  lemma LowerDecidesSameName(a: string, b: string)
    ensures Lower(a) == Lower(b) <==> SameName(a, b)
  {
    if Lower(a) == Lower(b) {
      forall i | 0 <= i < |a| ensures SameLetter(a[i], b[i]) {
        assert ToLower(a[i]) == Lower(a)[i] == Lower(b)[i] == ToLower(b[i]);
      }
    }
    if SameName(a, b) {
      forall i | 0 <= i < |a| ensures Lower(a)[i] == Lower(b)[i] {
        assert SameLetter(a[i], b[i]);
      }
    }
  }

  /** The lower-case form is the same name up to case, and has no upper-case letter. */
  lemma LowerIsLower(s: string)
    ensures SameName(s, Lower(s))
    ensures forall i :: 0 <= i < |s| ==> !('A' <= Lower(s)[i] <= 'Z')
  {
    assert forall i :: 0 <= i < |s| ==> Lower(s)[i] == ToLower(s[i]);
  }

  /** Lowering neither makes nor removes an illegal character, and is done once and for all. */
  lemma LowerKeepsValidity(s: string)
    ensures Valid(Lower(s)) <==> Valid(s)
    ensures Lower(Lower(s)) == Lower(s)
  {
    assert forall i :: 0 <= i < |s| ==> Lower(s)[i] == ToLower(s[i]);
  }

  // ---------------------------------------------------------------------------
  // Slots

  datatype Slots = Slots(index: map<string, nat>, next: nat)

  const EMPTY := Slots(map[], 0)

  /** The slots after one registration of a name given in any case. */
  function Registered(s: Slots, name: string): Slots {
    var key := Lower(name);
    if key in s.index then s else Slots(s.index[key := s.next], s.next + 1)
  }

  function RegisteredAll(s: Slots, names: seq<string>): Slots
    decreases |names|
  {
    if names == [] then s else RegisteredAll(Registered(s, names[0]), names[1..])
  }

  /** The slot of a name given in any case. */
  function Lookup(s: Slots, name: string): Option<nat> {
    if Lower(name) in s.index then Some(s.index[Lower(name)]) else None
  }

  /** The slots are numbered without gaps and without sharing. */
  ghost predicate Dense(s: Slots) {
    && |s.index| == s.next
    && (forall k :: k in s.index ==> s.index[k] < s.next)
    && (forall k, l :: k in s.index && l in s.index && s.index[k] == s.index[l] ==> k == l)
    && (forall n :: 0 <= n < s.next ==> IsGiven(s, n))
  }

  ghost predicate IsGiven(s: Slots, n: nat) {
    exists k :: k in s.index && s.index[k] == n
  }

  /** Every slot given before is given still. */
  ghost predicate Extends(s: Slots, s': Slots) {
    forall k :: k in s.index ==> k in s'.index && s'.index[k] == s.index[k]
  }

  lemma RegisteredKeeps(s: Slots, name: string)
    requires Dense(s)
    ensures Dense(Registered(s, name)) && Extends(s, Registered(s, name)) && Lower(name) in Registered(s, name).index
  {
    var s' := Registered(s, name);
    if Lower(name) !in s.index {
      forall n | 0 <= n < s'.next ensures IsGiven(s', n) {
        if n == s.next {
          assert s'.index[Lower(name)] == n;
        } else {
          assert IsGiven(s, n);
          var k :| k in s.index && s.index[k] == n;
          assert s'.index[k] == n;
        }
      }
    }
  }

  lemma {:induction false} RegisteredAllKeeps(s: Slots, names: seq<string>)
    requires Dense(s)
    ensures Dense(RegisteredAll(s, names)) && Extends(s, RegisteredAll(s, names))
    ensures forall i :: 0 <= i < |names| ==> Lower(names[i]) in RegisteredAll(s, names).index
    decreases |names|
  {
    if names != [] {
      RegisteredKeeps(s, names[0]);
      RegisteredAllKeeps(Registered(s, names[0]), names[1..]);
      assert forall i :: 0 < i < |names| ==> names[i] == names[1..][i - 1];
    }
  }

  /**
   * After any registrations the slots are a bijection onto 0..n-1, and two
   * registered names share a slot exactly when they are equal up to case.
   */
  lemma SlotsAreABijection(names: seq<string>, i: nat, j: nat)
    requires i < |names| && j < |names|
    ensures var s := RegisteredAll(EMPTY, names);
            && Dense(s) && Lower(names[i]) in s.index && Lower(names[j]) in s.index
            && (s.index[Lower(names[i])] == s.index[Lower(names[j])] <==> SameName(names[i], names[j]))
  {
    assert Dense(EMPTY);
    RegisteredAllKeeps(EMPTY, names);
    LowerDecidesSameName(names[i], names[j]);
  }

  /** The names registered, each in its lower-case form. */
  ghost function LowerNames(names: seq<string>): set<string> {
    set n | n in names :: Lower(n)
  }

  lemma {:induction false} RegisteredAllKeys(s: Slots, names: seq<string>)
    ensures RegisteredAll(s, names).index.Keys == s.index.Keys + LowerNames(names)
    decreases |names|
  {
    if names != [] {
      RegisteredAllKeys(Registered(s, names[0]), names[1..]);
      assert LowerNames(names) == {Lower(names[0])} + LowerNames(names[1..]);
    }
  }

  /**
   * The slot that a registration hands out: that of the name if it, or a name
   * equal to it up to case, was registered before, else the number of different
   * names registered before. A lookup finds this slot after any registrations.
   */
  lemma SlotIsForGood(before: seq<string>, name: string, after: seq<string>)
    ensures var s := RegisteredAll(EMPTY, before);
            var given := Registered(s, name);
            var slot := if exists i :: 0 <= i < |before| && SameName(before[i], name) then Lookup(s, name)
                        else Some(|LowerNames(before)|);
            && slot.Some? && Lower(name) in given.index && given.index[Lower(name)] == slot.value
            && Lookup(RegisteredAll(given, after), name) == slot
  {
    assert Dense(EMPTY);
    var s := RegisteredAll(EMPTY, before);
    RegisteredAllKeeps(EMPTY, before);
    RegisteredAllKeys(EMPTY, before);
    RegisteredAllFinds(EMPTY, before, name);
    assert |s.index| == |s.index.Keys| && s.index.Keys == LowerNames(before);
    RegisteredKeeps(s, name);
    RegisteredAllKeeps(Registered(s, name), after);
  }

  lemma {:induction false} RegisteredAllFinds(s: Slots, names: seq<string>, name: string)
    ensures Lookup(RegisteredAll(s, names), name).Some? <==>
            Lookup(s, name).Some? || exists i :: 0 <= i < |names| && SameName(names[i], name)
    decreases |names|
  {
    if names != [] {
      LowerDecidesSameName(names[0], name);
      RegisteredAllFinds(Registered(s, names[0]), names[1..], name);
      assert forall i :: 0 < i < |names| ==> names[i] == names[1..][i - 1];
      assert forall i :: 0 <= i < |names| - 1 ==> names[1..][i] == names[i + 1];
    }
  }

  /**
   * After any registrations a name is found exactly if it, or a name equal to
   * it up to case, was registered; two names that are found have the same slot
   * exactly if they are equal up to case.
   */
  lemma FoundExactlyIfRegistered(names: seq<string>, a: string, b: string)
    ensures var s := RegisteredAll(EMPTY, names);
            && (Lookup(s, a).Some? <==> exists i :: 0 <= i < |names| && SameName(names[i], a))
            && (Lookup(s, a).Some? && Lookup(s, b).Some? ==> (Lookup(s, a) == Lookup(s, b) <==> SameName(a, b)))
  {
    assert Dense(EMPTY);
    RegisteredAllKeeps(EMPTY, names);
    RegisteredAllFinds(EMPTY, names, a);
    LowerDecidesSameName(a, b);
  }

  class CustomInlineHeaderRegistry {
    var registrationMap: map<string, nat>
    var inlineHeaderIndex: nat
    var finalized: bool

    ghost function View(): Slots
      reads this
    {
      Slots(registrationMap, inlineHeaderIndex)
    }

    constructor ()
      ensures View() == EMPTY && !finalized
    {
      registrationMap, inlineHeaderIndex, finalized := map[], 0, false;
    }

    /** The handle is the entry of the map, whose slot never changes. */
    method RegisterInlineHeader(name: string) returns (slot: nat)
      modifies this
      ensures View() == Registered(old(View()), name) && finalized == old(finalized)
      ensures slot == View().index[Lower(name)]
    {
      var key := Lower(name);
      if key !in registrationMap {
        registrationMap := registrationMap[key := inlineHeaderIndex];
        inlineHeaderIndex := inlineHeaderIndex + 1;
      }
      slot := registrationMap[key];
    }

    method Finalize()
      modifies this
      ensures finalized && View() == old(View())
    {
      finalized := true;
    }

    method GetInlineHeader(name: string) returns (slot: Option<nat>)
      ensures slot == Lookup(View(), name)
    {
      var key := Lower(name);
      slot := if key in registrationMap then Some(registrationMap[key]) else None;
    }
  }
}
