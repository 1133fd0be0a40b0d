/**
 * What the supervisor keeps over every run of its handlers, whatever its
 * children do. The kernel is trusted for one thing: a fork never returns the
 * pid of a child that has not been reaped.
 */
module HotRestarterRuns {
  import opened Options
  import opened HotRestarter

  datatype Event =
    | Hup(fork: Option<Pid>)                     // at start, and on SIGHUP
    | Child(ended: map<Pid, Status>)             // SIGCHLD
    | User                                       // SIGUSR1
    | Terminate(rounds: nat -> map<Pid, Status>) // SIGTERM, SIGINT

  ghost predicate Possible(w: World, e: Event) {
    e.Hup? && e.fork.Some? ==> e.fork.value !in w.children
  }

  ghost function Next(w: World, e: Event): World {
    if w.exit.Some? then w else
    match e
    case Hup(fork) => Forked(w, fork)
    case Child(ended) => ChildDied(w, ended)
    case User => Propagated(w)
    case Terminate(rounds) => Terminated(w, rounds)
  }

  ghost predicate PossibleRun(w: World, events: seq<Event>)
    decreases |events|
  {
    events == [] || (Possible(w, events[0]) && PossibleRun(Next(w, events[0]), events[1..]))
  }

  ghost function Run(w: World, events: seq<Event>): World
    decreases |events|
  {
    if events == [] then w else Run(Next(w, events[0]), events[1..])
  }

  // ---------------------------------------------------------------------------
  // The invariant

  ghost predicate NoDuplicates(pids: seq<Pid>) {
    forall i, j :: 0 <= i < j < |pids| ==> pids[i] != pids[j]
  }

  /** Every fork is either reaped or held by its pid. */
  ghost predicate Accounted(w: World) {
    && (forall p :: p in w.children ==>
          && w.children[p] < |w.forks|
          && w.forks[w.children[p]].pid == p && w.forks[w.children[p]].status.None?)
    && (forall n :: 0 <= n < |w.forks| && w.forks[n].status.None? ==>
          w.forks[n].pid in w.children && w.children[w.forks[n].pid] == n)
  }

  /** The i-th child was started with epoch i, and the counter is the number of forks. */
  ghost predicate Numbered(w: World) {
    w.restartEpoch == |w.forks| && forall i :: 0 <= i < |w.forks| ==> w.forks[i].epoch == i
  }

  /** Every signal went to a child that was not reaped. */
  ghost predicate WellAimed(w: World) {
    forall i :: 0 <= i < |w.sent| ==> w.sent[i].target.Some?
  }

  /** The pid list is exactly the forked children not yet reaped, each once. */
  ghost predicate Lists(w: World) {
    NoDuplicates(w.pidList) && forall p :: p in w.pidList <==> p in w.children
  }

  /** No child has been reaped but with exit code 0. */
  ghost predicate AllClean(w: World) {
    forall n :: 0 <= n < |w.forks| ==> w.forks[n].status.None? || w.forks[n].status == Some(Exited(0))
  }

  ghost predicate EveryForkReaped(w: World) {
    forall n :: 0 <= n < |w.forks| ==> w.forks[n].status.Some?
  }

  /** SIGKILL has been sent to every child not reaped. */
  ghost predicate Killed(w: World) {
    forall p :: p in w.children ==> Sent(KILL, p, Some(w.children[p])) in w.sent
  }

  /** A running supervisor. */
  ghost predicate Alive(w: World) {
    && w.exit.None?
    && Lists(w) && Accounted(w) && Numbered(w) && WellAimed(w) && AllClean(w)
    && (w.forks != [] ==> w.pidList != [])
  }

  /** What holds of a supervisor that has exited. */
  ghost predicate Ended(w: World) {
    && w.exit.Some? && Accounted(w) && WellAimed(w)
    && match w.exit.value
       case Exit(0, LastChildDied) => Numbered(w) && EveryForkReaped(w) && AllClean(w)
       case Exit(code, LastChildDied) => Numbered(w) && code == 1 && !AllClean(w) && Killed(w)
       case Exit(0, ShutDown) => Numbered(w) && EveryForkReaped(w)
       case Exit(code, ShutDown) => Numbered(w) && code == 1 && !EveryForkReaped(w) && Killed(w)
       case Exit(code, ForkFailed) => code == 1
       case Exit(_, WaitFailed) => false
  }

  // ---------------------------------------------------------------------------
  // Sending

  lemma {:induction false} KillAllSends(w: World, signal: Signal, pids: seq<Pid>)
    requires WellAimed(w) && forall i :: 0 <= i < |pids| ==> pids[i] in w.children
    ensures var w' := KillAll(w, signal, pids);
            && w' == w.(sent := w'.sent) && WellAimed(w') && w.sent <= w'.sent
            && forall p :: p in pids ==> Sent(signal, p, Some(w.children[p])) in w'.sent
    decreases pids
  {
    if pids != [] {
      var w1 := Kill(w, signal, pids[0]);
      assert w1.sent[|w.sent|] == Sent(signal, pids[0], Some(w.children[pids[0]]));
      KillAllSends(w1, signal, pids[1..]);
      var w' := KillAll(w, signal, pids);
      assert w'.sent[|w.sent|] == w1.sent[|w.sent|];
      assert forall p :: p in pids ==> p == pids[0] || p in pids[1..];
    }
  }

  // ---------------------------------------------------------------------------
  // Polling

  lemma NoDuplicatesCons(p: Pid, pids: seq<Pid>)
    ensures NoDuplicates([p] + pids) <==> NoDuplicates(pids) && p !in pids
  {
    var all := [p] + pids;
    if NoDuplicates(all) {
      forall i | 0 <= i < |pids| ensures pids[i] != p { assert all[0] != all[i + 1]; }
      forall i, j | 0 <= i < j < |pids| ensures pids[i] != pids[j] { assert all[i + 1] != all[j + 1]; }
    }
  }

  lemma {:induction false} RemoveFirstMembers(pids: seq<Pid>, pid: Pid, p: Pid)
    requires NoDuplicates(pids)
    ensures p in RemoveFirst(pids, pid) <==> p in pids && p != pid
    decreases pids
  {
    if pids != [] {
      assert pids == [pids[0]] + pids[1..];
      NoDuplicatesCons(pids[0], pids[1..]);
      if pids[0] != pid { RemoveFirstMembers(pids[1..], pid, p); }
    }
  }

  lemma {:induction false} RemoveFirstDistinct(pids: seq<Pid>, pid: Pid)
    requires NoDuplicates(pids)
    ensures NoDuplicates(RemoveFirst(pids, pid))
    decreases pids
  {
    if pids != [] {
      assert pids == [pids[0]] + pids[1..];
      NoDuplicatesCons(pids[0], pids[1..]);
      if pids[0] != pid {
        RemoveFirstDistinct(pids[1..], pid);
        RemoveFirstMembers(pids[1..], pid, pids[0]);
        NoDuplicatesCons(pids[0], RemoveFirst(pids[1..], pid));
      }
    }
  }

  /** The forks once the children in `gone` have been reaped. */
  ghost function AfterReaping(forks: seq<Fork>, gone: set<Pid>, ended: map<Pid, Status>): seq<Fork>
    requires gone <= ended.Keys
  {
    seq(|forks|, n requires 0 <= n < |forks| =>
      if forks[n].status.None? && forks[n].pid in gone then forks[n].(status := Some(ended[forks[n].pid]))
      else forks[n])
  }

  /** `w'` is `w` with exactly the children in `gone` reaped. */
  ghost predicate Polled(w: World, gone: set<Pid>, ended: map<Pid, Status>, w': World)
    requires gone <= ended.Keys
  {
    && w' == w.(pidList := w'.pidList, children := w.children - gone, forks := AfterReaping(w.forks, gone, ended))
    && Lists(w') && Accounted(w')
  }

  lemma ReapedOne(w: World, pid: Pid, ended: map<Pid, Status>)
    requires w.exit.None? && Lists(w) && Accounted(w) && pid in w.children && pid in ended
    ensures Polled(w, {pid}, ended, Poll(w, pid, ended))
  {
    var w' := Poll(w, pid, ended);
    assert w'.forks == AfterReaping(w.forks, {pid}, ended);
    RemoveFirstDistinct(w.pidList, pid);
    forall p ensures p in w'.pidList <==> p in w'.children {
      RemoveFirstMembers(w.pidList, pid, p);
    }
  }

  lemma ReapedNone(w: World, ended: map<Pid, Status>)
    requires Lists(w) && Accounted(w)
    ensures Polled(w, {}, ended, w)
  {
    assert w.children - {} == w.children;
    assert AfterReaping(w.forks, {}, ended) == w.forks;
  }

  lemma PollOne(w: World, pid: Pid, ended: map<Pid, Status>)
    requires w.exit.None? && Lists(w) && Accounted(w) && pid in w.children
    ensures Polled(w, if pid in ended then {pid} else {}, ended, Poll(w, pid, ended))
  {
    if pid in ended { ReapedOne(w, pid, ended); } else { ReapedNone(w, ended); }
  }

  lemma PolledTwice(w: World, a: set<Pid>, b: set<Pid>, ended: map<Pid, Status>, w1: World, w2: World)
    requires a <= ended.Keys && b <= ended.Keys && Polled(w, a, ended, w1) && Polled(w1, b, ended, w2)
    ensures Polled(w, a + b, ended, w2)
  {
    assert w2.children == w.children - (a + b);
    assert w2.forks == AfterReaping(w.forks, a + b, ended);
  }

  ghost function Gone(pids: seq<Pid>, ended: map<Pid, Status>): set<Pid> {
    set p | p in pids && p in ended
  }

  /** A pass over listed pids reaps exactly those that have ended, and never fails. */
  lemma {:induction false} PollAllPolled(w: World, pids: seq<Pid>, ended: map<Pid, Status>)
    requires w.exit.None? && Lists(w) && Accounted(w)
    requires NoDuplicates(pids) && forall p :: p in pids ==> p in w.children
    ensures Polled(w, Gone(pids, ended), ended, PollAll(w, pids, ended))
    decreases pids
  {
    if pids == [] {
      ReapedNone(w, ended);
      assert Gone(pids, ended) == {};
    } else {
      var first := if pids[0] in ended then {pids[0]} else {};
      var w1 := Poll(w, pids[0], ended);
      PollOne(w, pids[0], ended);
      assert pids == [pids[0]] + pids[1..];
      NoDuplicatesCons(pids[0], pids[1..]);
      PollAllPolled(w1, pids[1..], ended);
      PolledTwice(w, first, Gone(pids[1..], ended), ended, w1, PollAll(w1, pids[1..], ended));
      assert first + Gone(pids[1..], ended) == Gone(pids, ended);
    }
  }

  // ---------------------------------------------------------------------------
  // SIGCHLD

  /** Nothing is left on the list exactly when every fork has been reaped. */
  lemma EmptyListIffAllReaped(w: World)
    requires Lists(w) && Accounted(w)
    ensures w.pidList == [] <==> EveryForkReaped(w)
  {
    if w.pidList != [] {
      assert w.pidList[0] in w.pidList;
      assert w.forks[w.children[w.pidList[0]]].status.None?;
    }
  }

  lemma ForceKillAllKills(w: World)
    requires Lists(w) && WellAimed(w)
    ensures var w' := ForceKillAll(w);
            w' == w.(sent := w'.sent, pidList := []) && WellAimed(w') && Killed(w') && w.sent <= w'.sent
  {
    forall i | 0 <= i < |w.pidList| ensures w.pidList[i] in w.children {
      assert w.pidList[i] in w.pidList;
    }
    KillAllSends(w, KILL, w.pidList);
  }

  /** The statuses reaped in a pass are all clean exactly when none of them was abnormal. */
  lemma CleanIffNormal(w: World, ended: map<Pid, Status>, w': World)
    requires Lists(w) && Accounted(w) && AllClean(w) && Polled(w, Gone(w.pidList, ended), ended, w')
    ensures AllClean(w') <==> !Abnormal(w.pidList, ended)
  {
    if Abnormal(w.pidList, ended) {
      var i :| 0 <= i < |w.pidList| && w.pidList[i] in ended && ended[w.pidList[i]] != Exited(0);
      var p := w.pidList[i];
      assert p in w.pidList;
      assert w'.forks[w.children[p]].status == Some(ended[p]);
    } else {
      forall n | 0 <= n < |w'.forks|
        ensures w'.forks[n].status.None? || w'.forks[n].status == Some(Exited(0))
      {
        assert w.forks[n].status.None? || w.forks[n].status == Some(Exited(0));
      }
    }
  }

  /** What a pass over the list keeps. */
  lemma PassKeeps(w: World, ended: map<Pid, Status>)
    requires Alive(w)
    ensures var w1 := PollAll(w, w.pidList, ended);
            && w1.exit.None? && Lists(w1) && Accounted(w1) && Numbered(w1) && WellAimed(w1)
            && (AllClean(w1) <==> !Abnormal(w.pidList, ended)) && (w1.pidList == [] <==> EveryForkReaped(w1))
  {
    PollAllPolled(w, w.pidList, ended);
    CleanIffNormal(w, ended, PollAll(w, w.pidList, ended));
    EmptyListIffAllReaped(PollAll(w, w.pidList, ended));
  }

  lemma ChildDiedKeeps(w: World, ended: map<Pid, Status>)
    requires Alive(w)
    ensures var w' := ChildDied(w, ended); Alive(w') || Ended(w')
  {
    PassKeeps(w, ended);
    if Abnormal(w.pidList, ended) {
      ForceKillAllKills(PollAll(w, w.pidList, ended));
    }
  }

  // ---------------------------------------------------------------------------
  // SIGTERM and SIGINT

  /** Whether `p` is found ended in one of the rounds from `from` on. */
  ghost predicate EndsIn(rounds: nat -> map<Pid, Status>, from: nat, p: Pid)
    decreases TERM_WAIT_SECONDS - from
  {
    from < TERM_WAIT_SECONDS && (p in rounds(from) || EndsIn(rounds, from + 1, p))
  }

  lemma {:induction false} EndsInMeaning(rounds: nat -> map<Pid, Status>, from: nat, p: Pid)
    ensures EndsIn(rounds, from, p) <==> exists r: nat :: from <= r < TERM_WAIT_SECONDS && p in rounds(r)
    decreases TERM_WAIT_SECONDS - from
  {
    if from < TERM_WAIT_SECONDS {
      EndsInMeaning(rounds, from + 1, p);
    }
  }

  /** Whether `p` is found ended in one of the thirty rounds. */
  ghost predicate FoundEnded(rounds: nat -> map<Pid, Status>, p: Pid) {
    exists r: nat :: r < 30 && p in rounds(r)
  }

  /** `w'` is `w` with some children reaped. */
  ghost predicate SomeReaped(w: World, w': World) {
    && w' == w.(pidList := w'.pidList, children := w'.children, forks := w'.forks)
    && Lists(w') && Accounted(w') && |w'.forks| == |w.forks|
    && forall i :: 0 <= i < |w.forks| ==> w'.forks[i].epoch == w.forks[i].epoch
  }

  lemma RoundLeaves(w: World, ended: map<Pid, Status>)
    requires w.exit.None? && Lists(w) && Accounted(w)
    ensures var w1 := PollAll(w, w.pidList, ended);
            SomeReaped(w, w1) && forall p :: p in w1.pidList <==> p in w.pidList && p !in ended
  {
    var w1 := PollAll(w, w.pidList, ended);
    PollAllPolled(w, w.pidList, ended);
    forall p ensures p in w1.pidList <==> p in w.pidList && p !in ended {
      assert p in w1.pidList <==> p in w1.children;
    }
  }

  /** The list of `w'` is the children listed in `w` that ended in none of the rounds. */
  ghost predicate Survivors(w: World, w': World, rounds: nat -> map<Pid, Status>, from: nat) {
    forall p :: p in w'.pidList <==> p in w.pidList && !EndsIn(rounds, from, p)
  }

  lemma SurvivorsStep(w: World, w1: World, w': World, rounds: nat -> map<Pid, Status>, from: nat)
    requires from < TERM_WAIT_SECONDS
    requires forall p :: p in w1.pidList <==> p in w.pidList && p !in rounds(from)
    requires Survivors(w1, w', rounds, from + 1)
    ensures Survivors(w, w', rounds, from)
  {
    forall p ensures p in w'.pidList <==> p in w.pidList && !EndsIn(rounds, from, p) {
      assert p in w1.pidList <==> p in w.pidList && p !in rounds(from);
    }
  }

  /** Waiting only reaps children. */
  lemma {:induction false} AwaitedReaps(w: World, rounds: nat -> map<Pid, Status>, retries: nat)
    requires w.exit.None? && Lists(w) && Accounted(w)
    ensures SomeReaped(w, Awaited(w, rounds, retries))
    decreases TERM_WAIT_SECONDS - retries
  {
    if retries < TERM_WAIT_SECONDS {
      var w1 := PollAll(w, w.pidList, rounds(retries));
      RoundLeaves(w, rounds(retries));
      if w1.pidList != [] {
        AwaitedReaps(w1, rounds, retries + 1);
        SomeReapedTwice(w, w1, Awaited(w1, rounds, retries + 1));
      }
    }
  }

  lemma AwaitedLeavesStep(w: World, w1: World, rounds: nat -> map<Pid, Status>, retries: nat)
    requires w.exit.None? && Lists(w) && Accounted(w) && retries < TERM_WAIT_SECONDS
    requires w1 == PollAll(w, w.pidList, rounds(retries))
    requires w1.pidList != [] ==> Survivors(w1, Awaited(w1, rounds, retries + 1), rounds, retries + 1)
    ensures Survivors(w, Awaited(w, rounds, retries), rounds, retries)
  {
    RoundLeaves(w, rounds(retries));
    SurvivorsStep(w, w1, Awaited(w, rounds, retries), rounds, retries);
  }

  /** After the rounds, the list holds exactly the children that ended in none of them. */
  lemma {:induction false} AwaitedLeaves(w: World, rounds: nat -> map<Pid, Status>, retries: nat)
    requires w.exit.None? && Lists(w) && Accounted(w)
    ensures Survivors(w, Awaited(w, rounds, retries), rounds, retries)
    decreases TERM_WAIT_SECONDS - retries
  {
    if retries >= TERM_WAIT_SECONDS {
      NoRoundLeft(w, rounds, retries);
    } else {
      var w1 := PollAll(w, w.pidList, rounds(retries));
      if w1.pidList != [] {
        RoundIsSound(w, rounds(retries));
        AwaitedLeaves(w1, rounds, retries + 1);
      }
      AwaitedLeavesStep(w, w1, rounds, retries);
    }
  }

  lemma NoRoundLeft(w: World, rounds: nat -> map<Pid, Status>, retries: nat)
    requires retries >= TERM_WAIT_SECONDS
    ensures Survivors(w, Awaited(w, rounds, retries), rounds, retries)
  {}

  lemma RoundIsSound(w: World, ended: map<Pid, Status>)
    requires w.exit.None? && Lists(w) && Accounted(w)
    ensures var w1 := PollAll(w, w.pidList, ended); w1.exit.None? && Lists(w1) && Accounted(w1)
  {
    RoundLeaves(w, ended);
  }

  lemma SomeReapedTwice(w: World, w1: World, w2: World)
    requires SomeReaped(w, w1) && SomeReaped(w1, w2)
    ensures SomeReaped(w, w2)
  {}

  /** What the two ends of shutdown leave, once the waiting is over. */
  lemma ShutdownEnds(w: World, w1: World)
    requires w.exit.None? && Numbered(w) && WellAimed(w) && SomeReaped(w, w1)
    ensures w1.pidList == [] ==> Ended(w1.(exit := Some(Exit(0, ShutDown))))
    ensures w1.pidList != [] ==>
              var w' := ForceKillAll(w1).(exit := Some(Exit(1, ShutDown)));
              Ended(w') && Killed(w') && w.sent <= w'.sent
  {
    EmptyListIffAllReaped(w1);
    if w1.pidList != [] {
      ForceKillAllKills(w1);
    }
  }

  /**
   * Shutdown exits with 0 if and only if every listed child is found ended in
   * one of the polling rounds; otherwise it exits with 1, and has sent SIGKILL
   * to every child that was not reaped.
   */
  lemma ShutdownOutcome(w: World, rounds: nat -> map<Pid, Status>)
    requires Alive(w)
    ensures var w' := Terminated(w, rounds);
            && Ended(w') && w'.exit.value.cause == ShutDown
            && (w'.exit.value.code == 0 <==> forall p :: p in w.pidList ==> FoundEnded(rounds, p))
            && (w'.exit.value.code != 0 ==> w'.exit.value.code == 1 && Killed(w'))
            && (forall p :: p in w.pidList ==> Sent(TERM, p, Some(w.children[p])) in w'.sent)
  {
    var w0 := KillAll(w, TERM, w.pidList);
    TermSent(w);
    AwaitedReaps(w0, rounds, 0);
    AwaitedLeaves(w0, rounds, 0);
    var w1 := Awaited(w0, rounds, 0);
    ShutdownEnds(w0, w1);
    NobodyLeftIff(w0, w1, rounds);
  }

  lemma TermSent(w: World)
    requires Alive(w)
    ensures var w0 := KillAll(w, TERM, w.pidList);
            && w0 == w.(sent := w0.sent) && WellAimed(w0)
            && forall p :: p in w.pidList ==> Sent(TERM, p, Some(w.children[p])) in w0.sent
  {
    forall i | 0 <= i < |w.pidList| ensures w.pidList[i] in w.children { assert w.pidList[i] in w.pidList; }
    KillAllSends(w, TERM, w.pidList);
  }

  lemma NobodyLeftIff(w: World, w1: World, rounds: nat -> map<Pid, Status>)
    requires Survivors(w, w1, rounds, 0)
    ensures w1.pidList == [] <==> forall p :: p in w.pidList ==> FoundEnded(rounds, p)
  {
    forall p ensures EndsIn(rounds, 0, p) <==> FoundEnded(rounds, p) { EndsInMeaning(rounds, 0, p); }
    if w1.pidList == [] {
      forall p | p in w.pidList ensures FoundEnded(rounds, p) { assert p !in w1.pidList; }
    } else {
      assert w1.pidList[0] in w1.pidList;
    }
  }

  // ---------------------------------------------------------------------------
  // All runs

  lemma ForkLists(w: World, pid: Pid)
    requires Lists(w) && Accounted(w) && pid !in w.children
    ensures var w' := Forked(w, Some(pid)); Lists(w') && Accounted(w')
  {
    var w' := Forked(w, Some(pid));
    assert pid !in w.pidList;
    forall n | 0 <= n < |w'.forks| && w'.forks[n].status.None?
      ensures w'.forks[n].pid in w'.children && w'.children[w'.forks[n].pid] == n
    {
      if n < |w.forks| { assert w'.forks[n] == w.forks[n]; }
    }
  }

  lemma ForkKeeps(w: World, fork: Option<Pid>)
    requires Alive(w) && Possible(w, Hup(fork))
    ensures var w' := Forked(w, fork); Alive(w') || Ended(w')
  {
    if fork.Some? {
      ForkLists(w, fork.value);
    }
  }

  /** SIGUSR1 is passed on to every child not reaped. */
  lemma UserKeeps(w: World)
    requires Alive(w)
    ensures Alive(Propagated(w))
    ensures forall p :: p in w.children ==> Sent(USR1, p, Some(w.children[p])) in Propagated(w).sent
  {
    forall i | 0 <= i < |w.pidList| ensures w.pidList[i] in w.children { assert w.pidList[i] in w.pidList; }
    KillAllSends(w, USR1, w.pidList);
  }

  lemma NextKeeps(w: World, e: Event)
    requires (Alive(w) || Ended(w)) && Possible(w, e)
    ensures Alive(Next(w, e)) || Ended(Next(w, e))
  {
    if w.exit.None? {
      match e
      case Hup(fork) => ForkKeeps(w, fork);
      case Child(ended) => ChildDiedKeeps(w, ended);
      case User => UserKeeps(w);
      case Terminate(rounds) => ShutdownOutcome(w, rounds);
    }
  }

  lemma {:induction false} RunKeeps(w: World, events: seq<Event>)
    requires (Alive(w) || Ended(w)) && PossibleRun(w, events)
    ensures Alive(Run(w, events)) || Ended(Run(w, events))
    decreases |events|
  {
    if events != [] {
      NextKeeps(w, events[0]);
      RunKeeps(Next(w, events[0]), events[1..]);
    }
  }

  /** In every run the supervisor is alive and well, or has exited for one of the stated reasons. */
  lemma EveryRun(events: seq<Event>)
    requires PossibleRun(START, events)
    ensures var w := Run(START, events);
            if w.exit.None? then Alive(w) else Ended(w)
  {
    RunKeeps(START, events);
  }

  /** It exits by itself with 0 if and only if every child ever forked has ended with exit code 0. */
  lemma ExitsZeroIffAllClean(events: seq<Event>)
    requires PossibleRun(START, events)
    requires var w := Run(START, events); w.exit.Some? && w.exit.value.cause == LastChildDied
    ensures var w := Run(START, events);
            w.exit.value.code == 0 <==>
            forall n :: 0 <= n < |w.forks| ==> w.forks[n].status == Some(Exited(0))
  {
    EveryRun(events);
  }
}
