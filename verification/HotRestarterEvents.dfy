/**
 * What each event does to the whole state of a running supervisor: which
 * signals it sends, in which order, which children it reaps with which status,
 * and whether and how it ends.
 */
module HotRestarterEvents {
  import opened Options
  import opened HotRestarter
  import opened HotRestarterRuns

  /** The listed pids that are not in `gone`, in their order. */
  function Without(pids: seq<Pid>, gone: set<Pid>): seq<Pid> {
    if pids == [] then []
    else if pids[0] in gone then Without(pids[1..], gone)
    else [pids[0]] + Without(pids[1..], gone)
  }

  /** One signal for each of `pids`, to the child that holds the pid. */
  ghost function Aimed(w: World, signal: Signal, pids: seq<Pid>): seq<Sent>
    requires forall p :: p in pids ==> p in w.children
  {
    seq(|pids|, i requires 0 <= i < |pids| => Sent(signal, pids[i], Some(w.children[pids[i]])))
  }

  lemma {:induction false} KillAllAims(w: World, signal: Signal, pids: seq<Pid>)
    requires forall p :: p in pids ==> p in w.children
    ensures KillAll(w, signal, pids) == w.(sent := w.sent + Aimed(w, signal, pids))
    decreases pids
  {
    if pids == [] {
      assert Aimed(w, signal, pids) == [];
      assert w.sent + [] == w.sent;
    } else {
      var w1 := Kill(w, signal, pids[0]);
      KillAllAims(w1, signal, pids[1..]);
      AimedCons(w, w1, signal, pids);
    }
  }

  lemma AimedCons(w: World, w1: World, signal: Signal, pids: seq<Pid>)
    requires pids != [] && w1.children == w.children && forall p :: p in pids ==> p in w.children
    ensures [Sent(signal, pids[0], Some(w.children[pids[0]]))] + Aimed(w1, signal, pids[1..]) == Aimed(w, signal, pids)
    ensures w.sent + Aimed(w, signal, pids) ==
            w.sent + [Sent(signal, pids[0], Some(w.children[pids[0]]))] + Aimed(w1, signal, pids[1..])
  {
    assert [Sent(signal, pids[0], Some(w.children[pids[0]]))] + Aimed(w1, signal, pids[1..]) == Aimed(w, signal, pids);
  }

  lemma ListedAreChildren(w: World)
    requires Lists(w)
    ensures forall p :: p in w.pidList ==> p in w.children
  {}

  // ---------------------------------------------------------------------------
  // What is left on the list

  lemma {:induction false} WithoutMembers(pids: seq<Pid>, gone: set<Pid>, p: Pid)
    ensures p in Without(pids, gone) <==> p in pids && p !in gone
  {
    if pids != [] { WithoutMembers(pids[1..], gone, p); }
  }

  lemma {:induction false} RemoveAfter(keep: seq<Pid>, pid: Pid, rest: seq<Pid>)
    requires pid !in keep
    ensures RemoveFirst(keep + [pid] + rest, pid) == keep + rest
    decreases keep
  {
    var all := keep + [pid] + rest;
    if keep == [] {
      assert all[1..] == rest && keep + rest == rest;
    } else {
      RemoveAfter(keep[1..], pid, rest);
      assert all[1..] == keep[1..] + [pid] + rest;
      assert keep + rest == [keep[0]] + (keep[1..] + rest);
    }
  }

  lemma DistinctParts(keep: seq<Pid>, pids: seq<Pid>)
    requires pids != [] && NoDuplicates(keep + pids)
    ensures pids[0] !in keep
  {
    var all := keep + pids;
    forall i | 0 <= i < |keep| ensures keep[i] != pids[0] {
      assert all[i] == keep[i] && all[|keep|] == pids[0];
    }
  }

  lemma WithoutCons(keep: seq<Pid>, pids: seq<Pid>, gone: set<Pid>)
    requires pids != []
    ensures keep + Without(pids, gone) ==
            Keep(keep, pids, gone) + Without(pids[1..], gone)
  {}

  lemma ListStep(keep: seq<Pid>, pids: seq<Pid>, gone: set<Pid>)
    requires pids != [] && NoDuplicates(keep + pids)
    ensures (if pids[0] in gone then RemoveFirst(keep + pids, pids[0]) else keep + pids) ==
            Keep(keep, pids, gone) + pids[1..]
  {
    assert keep + pids == keep + [pids[0]] + pids[1..];
    DistinctParts(keep, pids);
    RemoveAfter(keep, pids[0], pids[1..]);
  }

  /** What is kept of the list once the first of `pids` has been polled. */
  function Keep(keep: seq<Pid>, pids: seq<Pid>, gone: set<Pid>): seq<Pid>
    requires pids != []
  {
    if pids[0] in gone then keep else keep + [pids[0]]
  }

  lemma PollStep(w: World, keep: seq<Pid>, pids: seq<Pid>, ended: map<Pid, Status>)
    requires w.exit.None? && Lists(w) && Accounted(w) && pids != [] && w.pidList == keep + pids
    ensures var w1 := Poll(w, pids[0], ended);
            && w1.exit.None? && Lists(w1) && Accounted(w1)
            && w1.pidList == Keep(keep, pids, ended.Keys) + pids[1..]
  {
    assert w.pidList[|keep|] == pids[0];
    assert pids[0] in w.pidList;
    PollOne(w, pids[0], ended);
    ListStep(keep, pids, ended.Keys);
  }

  /** A pass over the rest of the list leaves what was kept, and the children that have not ended. */
  lemma {:induction false} PollAllList(w: World, keep: seq<Pid>, pids: seq<Pid>, ended: map<Pid, Status>)
    requires w.exit.None? && Lists(w) && Accounted(w) && w.pidList == keep + pids
    ensures PollAll(w, pids, ended).pidList == keep + Without(pids, ended.Keys)
    decreases pids
  {
    if pids != [] {
      PollStep(w, keep, pids, ended);
      WithoutCons(keep, pids, ended.Keys);
      PollAllList(Poll(w, pids[0], ended), Keep(keep, pids, ended.Keys), pids[1..], ended);
    }
  }

  /** The forks once every child that has ended has been reaped. */
  ghost function EndedForks(forks: seq<Fork>, ended: map<Pid, Status>): seq<Fork> {
    seq(|forks|, n requires 0 <= n < |forks| =>
      if forks[n].status.None? && forks[n].pid in ended then forks[n].(status := Some(ended[forks[n].pid]))
      else forks[n])
  }

  lemma GoneChildren(w: World, ended: map<Pid, Status>)
    requires Lists(w)
    ensures w.children - Gone(w.pidList, ended) == map p | p in w.children && p !in ended :: w.children[p]
  {}

  lemma GoneForks(w: World, ended: map<Pid, Status>)
    requires Lists(w) && Accounted(w)
    ensures AfterReaping(w.forks, Gone(w.pidList, ended), ended) == EndedForks(w.forks, ended)
  {
    forall n | 0 <= n < |w.forks| && w.forks[n].status.None?
      ensures w.forks[n].pid in Gone(w.pidList, ended) <==> w.forks[n].pid in ended
    {
      assert w.forks[n].pid in w.children;
    }
  }

  lemma PassList(w: World, ended: map<Pid, Status>)
    requires w.exit.None? && Lists(w) && Accounted(w)
    ensures PollAll(w, w.pidList, ended).pidList == Without(w.pidList, ended.Keys)
  {
    assert [] + w.pidList == w.pidList && [] + Without(w.pidList, ended.Keys) == Without(w.pidList, ended.Keys);
    PollAllList(w, [], w.pidList, ended);
  }

  /** What a pass over the list does. */
  lemma PassDoes(w: World, ended: map<Pid, Status>)
    requires w.exit.None? && Lists(w) && Accounted(w)
    ensures PollAll(w, w.pidList, ended) ==
            w.(pidList := Without(w.pidList, ended.Keys),
               children := map p | p in w.children && p !in ended :: w.children[p],
               forks := EndedForks(w.forks, ended))
  {
    PollAllPolled(w, w.pidList, ended);
    PassList(w, ended);
    GoneChildren(w, ended);
    GoneForks(w, ended);
  }

  lemma LeftAreChildren(w: World, ended: map<Pid, Status>)
    requires Lists(w)
    ensures forall p :: p in Without(w.pidList, ended.Keys) ==> p in w.children && p !in ended
  {
    forall p | p in Without(w.pidList, ended.Keys) ensures p in w.children && p !in ended {
      WithoutMembers(w.pidList, ended.Keys, p);
    }
  }

  // ---------------------------------------------------------------------------
  // SIGHUP, SIGUSR1, SIGCHLD

  /** A fork is listed last and numbered by its epoch; no signal is sent. */
  lemma HupDoes(w: World, fork: Option<Pid>)
    requires Alive(w)
    ensures Next(w, Hup(fork)) ==
            if fork.None? then w.(restartEpoch := |w.forks| + 1, exit := Some(Exit(1, ForkFailed)))
            else w.(restartEpoch := |w.forks| + 1,
                    pidList := w.pidList + [fork.value],
                    children := w.children[fork.value := |w.forks|],
                    forks := w.forks + [Fork(|w.forks|, fork.value, None)])
  {}

  /** Exactly one SIGUSR1 goes to each listed child, and nothing else changes. */
  lemma UserDoes(w: World)
    requires Alive(w)
    ensures Next(w, User) == w.(sent := w.sent + Aimed(w, USR1, w.pidList))
  {
    ListedAreChildren(w);
    KillAllAims(w, USR1, w.pidList);
  }

  /** Some listed child ended other than by exiting with code 0. */
  ghost predicate SomeBad(w: World, ended: map<Pid, Status>) {
    exists p :: p in w.pidList && p in ended && ended[p] != Exited(0)
  }

  /**
   * SIGCHLD reaps exactly the listed children that have ended. If all of them
   * exited with code 0 no signal is sent, and the supervisor ends, with code 0,
   * exactly if no child is left. Otherwise exactly one SIGKILL goes to each
   * child that is left, and it ends with code 1.
   */
  lemma ChildDoes(w: World, ended: map<Pid, Status>)
    requires Alive(w)
    ensures var left := Without(w.pidList, ended.Keys);
            && (forall p :: p in left ==> p in w.children)
            && Next(w, Child(ended)) ==
               w.(pidList := if SomeBad(w, ended) then [] else left,
                  children := map p | p in w.children && p !in ended :: w.children[p],
                  forks := EndedForks(w.forks, ended),
                  sent := if SomeBad(w, ended) then w.sent + Aimed(w, KILL, left) else w.sent,
                  exit := if SomeBad(w, ended) then Some(Exit(1, LastChildDied))
                          else if left == [] then Some(Exit(0, LastChildDied)) else None)
  {
    var w1 := PollAll(w, w.pidList, ended);
    PassDoes(w, ended);
    LeftAreChildren(w, ended);
    BadIsAbnormal(w, ended);
    if SomeBad(w, ended) {
      KillAllAims(w1, KILL, w1.pidList);
      AimedSame(w, w1, KILL, w1.pidList);
    }
  }

  lemma BadIsAbnormal(w: World, ended: map<Pid, Status>)
    ensures SomeBad(w, ended) <==> Abnormal(w.pidList, ended)
  {
    if SomeBad(w, ended) {
      var p :| p in w.pidList && p in ended && ended[p] != Exited(0);
      var i :| 0 <= i < |w.pidList| && w.pidList[i] == p;
    }
  }

  lemma AimedSame(w: World, w1: World, signal: Signal, pids: seq<Pid>)
    requires forall p :: p in pids ==> p in w.children && p in w1.children && w1.children[p] == w.children[p]
    ensures Aimed(w1, signal, pids) == Aimed(w, signal, pids)
  {}

  // ---------------------------------------------------------------------------
  // SIGTERM and SIGINT

  /** The status with which `p` is first found ended, from round `from` to the thirtieth. */
  function FirstFound(rounds: nat -> map<Pid, Status>, from: nat, p: Pid): Option<Status>
    decreases 30 - from
  {
    if from >= 30 then None
    else if p in rounds(from) then Some(rounds(from)[p])
    else FirstFound(rounds, from + 1, p)
  }

  /** The pids that are found ended in no round from `from` on, in their order. */
  function Never(pids: seq<Pid>, rounds: nat -> map<Pid, Status>, from: nat): seq<Pid> {
    if pids == [] then []
    else if FirstFound(rounds, from, pids[0]).Some? then Never(pids[1..], rounds, from)
    else [pids[0]] + Never(pids[1..], rounds, from)
  }

  /** The forks, each with the status it was first found with. */
  ghost function FoundForks(forks: seq<Fork>, rounds: nat -> map<Pid, Status>, from: nat): seq<Fork> {
    seq(|forks|, n requires 0 <= n < |forks| =>
      if forks[n].status.None? then forks[n].(status := FirstFound(rounds, from, forks[n].pid)) else forks[n])
  }

  ghost function FoundChildren(children: map<Pid, nat>, rounds: nat -> map<Pid, Status>, from: nat): map<Pid, nat> {
    map p | p in children && FirstFound(rounds, from, p).None? :: children[p]
  }

  lemma {:induction false} NeverMembers(pids: seq<Pid>, rounds: nat -> map<Pid, Status>, from: nat, p: Pid)
    ensures p in Never(pids, rounds, from) <==> p in pids && FirstFound(rounds, from, p).None?
  {
    if pids != [] { NeverMembers(pids[1..], rounds, from, p); }
  }

  lemma {:induction false} NeverStep(pids: seq<Pid>, rounds: nat -> map<Pid, Status>, from: nat)
    requires from < 30
    ensures Never(Without(pids, rounds(from).Keys), rounds, from + 1) == Never(pids, rounds, from)
  {
    if pids != [] { NeverStep(pids[1..], rounds, from); }
  }

  lemma {:induction false} NeverAtTheEnd(pids: seq<Pid>, rounds: nat -> map<Pid, Status>, from: nat)
    requires from >= 30
    ensures Never(pids, rounds, from) == pids
  {
    if pids != [] { NeverAtTheEnd(pids[1..], rounds, from); }
  }

  /** `w` once the rounds from `from` on have reaped what they found. */
  ghost function AfterRounds(w: World, rounds: nat -> map<Pid, Status>, from: nat): World {
    w.(pidList := Never(w.pidList, rounds, from),
       children := FoundChildren(w.children, rounds, from),
       forks := FoundForks(w.forks, rounds, from))
  }

  lemma NoRoundsLeft(w: World, rounds: nat -> map<Pid, Status>, from: nat)
    requires from >= 30
    ensures AfterRounds(w, rounds, from) == w
  {
    NeverAtTheEnd(w.pidList, rounds, from);
    assert FoundChildren(w.children, rounds, from) == w.children;
    assert FoundForks(w.forks, rounds, from) == w.forks;
  }

  lemma NobodyToFind(w: World, rounds: nat -> map<Pid, Status>, from: nat)
    requires Lists(w) && Accounted(w) && w.pidList == []
    ensures AfterRounds(w, rounds, from) == w
  {
    assert forall p :: p !in w.children;
    assert FoundChildren(w.children, rounds, from) == w.children;
    assert FoundForks(w.forks, rounds, from) == w.forks;
  }

  lemma OneMoreRound(w: World, rounds: nat -> map<Pid, Status>, from: nat)
    requires w.exit.None? && Lists(w) && Accounted(w) && from < 30
    ensures AfterRounds(PollAll(w, w.pidList, rounds(from)), rounds, from + 1) == AfterRounds(w, rounds, from)
  {
    var ended := rounds(from);
    var w1 := PollAll(w, w.pidList, ended);
    PassDoes(w, ended);
    NeverStep(w.pidList, rounds, from);
    assert FoundChildren(w1.children, rounds, from + 1) == FoundChildren(w.children, rounds, from);
    assert FoundForks(w1.forks, rounds, from + 1) == FoundForks(w.forks, rounds, from);
  }

  /** Waiting is thirty rounds, of which the first that find a child ended count. */
  lemma {:induction false} AwaitedDoes(w: World, rounds: nat -> map<Pid, Status>, retries: nat)
    requires w.exit.None? && Lists(w) && Accounted(w)
    ensures Awaited(w, rounds, retries) == AfterRounds(w, rounds, retries)
    decreases 30 - retries
  {
    if retries >= 30 {
      NoRoundsLeft(w, rounds, retries);
    } else {
      var w1 := PollAll(w, w.pidList, rounds(retries));
      RoundIsSound(w, rounds(retries));
      OneMoreRound(w, rounds, retries);
      if w1.pidList == [] {
        NobodyToFind(w1, rounds, retries + 1);
      } else {
        AwaitedDoes(w1, rounds, retries + 1);
      }
    }
  }

  /**
   * SIGTERM and SIGINT send exactly one SIGTERM to each listed child, reap those
   * found ended in thirty rounds, send exactly one SIGKILL to each of the others,
   * and end with code 0 exactly if there are none.
   */
  lemma TerminateDoes(w: World, rounds: nat -> map<Pid, Status>)
    requires Alive(w)
    ensures var left := Never(w.pidList, rounds, 0);
            && (forall p :: p in w.pidList || p in left ==> p in w.children)
            && Next(w, Terminate(rounds)) ==
               w.(pidList := [],
                  children := FoundChildren(w.children, rounds, 0),
                  forks := FoundForks(w.forks, rounds, 0),
                  sent := w.sent + Aimed(w, TERM, w.pidList) + Aimed(w, KILL, left),
                  exit := Some(Exit(if left == [] then 0 else 1, ShutDown)))
  {
    var left := Never(w.pidList, rounds, 0);
    forall p | p in w.pidList || p in left ensures p in w.children { NeverMembers(w.pidList, rounds, 0, p); }
    var w0 := KillAll(w, TERM, w.pidList);
    KillAllAims(w, TERM, w.pidList);
    AwaitedDoes(w0, rounds, 0);
    ShutdownRest(w, w0, AfterRounds(w0, rounds, 0), rounds);
  }

  lemma ShutdownRest(w: World, w0: World, w1: World, rounds: nat -> map<Pid, Status>)
    requires w.exit.None? && w0 == w.(sent := w0.sent) && w1 == AfterRounds(w0, rounds, 0)
    requires forall p :: p in w.pidList ==> p in w.children
    ensures var left := Never(w.pidList, rounds, 0);
            && (forall p :: p in left ==> p in w.children)
            && (left == [] ==> w1.sent == w0.sent + Aimed(w, KILL, left))
            && ForceKillAll(w1) == w1.(pidList := [], sent := w0.sent + Aimed(w, KILL, left))
  {
    var left := Never(w.pidList, rounds, 0);
    forall p | p in left ensures p in w.children && p in w1.children && w1.children[p] == w.children[p] {
      NeverMembers(w.pidList, rounds, 0, p);
    }
    KillAllAims(w1, KILL, left);
    AimedSame(w, w1, KILL, left);
  }

  /** A supervisor that has ended does nothing any more. */
  lemma EndedDoesNothing(w: World, e: Event)
    requires w.exit.Some?
    ensures Next(w, e) == w
  {}
}
