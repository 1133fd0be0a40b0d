/**
 * The hot-restart supervisor: it forks children, and handles SIGHUP, SIGCHLD,
 * SIGUSR1, SIGTERM and SIGINT until it exits. Each handler is one atomic step.
 *
 * `World` is the supervisor's two globals together with what the kernel knows
 * of its children. A child is known by the order of its fork, since the kernel
 * may give a pid again once its child has been reaped.
 */
module HotRestarter {
  import opened Options

  const TERM_WAIT_SECONDS: nat := 30

  type Pid = nat

  datatype Status = Exited(code: nat) | Signaled(signal: nat) | Other

  datatype Signal = TERM | KILL | USR1

  /** A signal sent to a pid, and the unreaped child that held the pid then, if any. */
  datatype Sent = Sent(signal: Signal, pid: Pid, target: Option<nat>)

  datatype Cause =
    | LastChildDied  // from the SIGCHLD handler
    | ShutDown       // from the SIGTERM and SIGINT handlers
    | ForkFailed     // os.fork raised
    | WaitFailed     // os.waitpid raised: not a child

  datatype Exit = Exit(code: nat, cause: Cause)

  /** A child: the RESTART_EPOCH it was started with, its pid, and how it ended once reaped. */
  datatype Fork = Fork(epoch: nat, pid: Pid, status: Option<Status>)

  datatype World = World(
    restartEpoch: nat,
    pidList: seq<Pid>,
    children: map<Pid, nat>,  // the unreaped children by pid: their fork numbers
    forks: seq<Fork>,         // every child ever forked, in order
    sent: seq<Sent>,
    exit: Option<Exit>)

  const START := World(0, [], map[], [], [], None)

  // ---------------------------------------------------------------------------
  // What the parts of the handlers do

  function Kill(w: World, signal: Signal, pid: Pid): World {
    w.(sent := w.sent + [Sent(signal, pid, if pid in w.children then Some(w.children[pid]) else None)])
  }

  function KillAll(w: World, signal: Signal, pids: seq<Pid>): World
    decreases pids
  {
    if pids == [] then w else KillAll(Kill(w, signal, pids[0]), signal, pids[1..])
  }

  function RemoveFirst(pids: seq<Pid>, pid: Pid): seq<Pid> {
    if pids == [] then [] else if pids[0] == pid then pids[1..] else [pids[0]] + RemoveFirst(pids[1..], pid)
  }

  function Reaped(forks: seq<Fork>, n: nat, status: Status): seq<Fork> {
    if n < |forks| then forks[n := forks[n].(status := Some(status))] else forks
  }

  /** A non-blocking wait for `pid`: `ended` holds the children found to have ended. */
  function Poll(w: World, pid: Pid, ended: map<Pid, Status>): World {
    if pid !in w.children then w.(exit := Some(Exit(1, WaitFailed)))
    else if pid !in ended then w
    else w.(pidList := RemoveFirst(w.pidList, pid),
            children := w.children - {pid},
            forks := Reaped(w.forks, w.children[pid], ended[pid]))
  }

  function PollAll(w: World, pids: seq<Pid>, ended: map<Pid, Status>): World
    decreases pids
  {
    if pids == [] || w.exit.Some? then w else PollAll(Poll(w, pids[0], ended), pids[1..], ended)
  }

  function ForceKillAll(w: World): World {
    KillAll(w, KILL, w.pidList).(pidList := [])
  }

  /** Whether one of the polled children ended other than by exiting with code 0. */
  ghost predicate Abnormal(pids: seq<Pid>, ended: map<Pid, Status>) {
    exists i :: 0 <= i < |pids| && pids[i] in ended && ended[pids[i]] != Exited(0)
  }

  // ---------------------------------------------------------------------------
  // The handlers

  /** fork_and_exec, at start and on SIGHUP; `fork` is the new pid, or None if os.fork raised. */
  function Forked(w: World, fork: Option<Pid>): World {
    var w' := w.(restartEpoch := w.restartEpoch + 1);
    if fork.None? then w'.(exit := Some(Exit(1, ForkFailed)))
    else w'.(pidList := w.pidList + [fork.value],
             children := w.children[fork.value := |w.forks|],
             forks := w.forks + [Fork(w.restartEpoch, fork.value, None)])
  }

  ghost function ChildDied(w: World, ended: map<Pid, Status>): World {
    var w1 := PollAll(w, w.pidList, ended);
    if w1.exit.Some? then w1 else
    var abnormal := Abnormal(w.pidList, ended);
    var w2 := if abnormal then ForceKillAll(w1) else w1;
    if w2.pidList == [] then w2.(exit := Some(Exit(if abnormal then 1 else 0, LastChildDied))) else w2
  }

  /** The polling rounds; `rounds(r)` holds the children found ended in round `r`. */
  function Awaited(w: World, rounds: nat -> map<Pid, Status>, retries: nat): World
    decreases TERM_WAIT_SECONDS - retries
  {
    if retries >= TERM_WAIT_SECONDS then w else
    var w1 := PollAll(w, w.pidList, rounds(retries));
    if w1.exit.Some? || w1.pidList == [] then w1 else Awaited(w1, rounds, retries + 1)
  }

  function Terminated(w: World, rounds: nat -> map<Pid, Status>): World {
    var w1 := Awaited(KillAll(w, TERM, w.pidList), rounds, 0);
    if w1.exit.Some? then w1
    else if w1.pidList == [] then w1.(exit := Some(Exit(0, ShutDown)))
    else ForceKillAll(w1).(exit := Some(Exit(1, ShutDown)))
  }

  function Propagated(w: World): World {
    KillAll(w, USR1, w.pidList)
  }

  // ---------------------------------------------------------------------------
  // The code

  class Supervisor {
    var restartEpoch: nat
    var pidList: seq<Pid>
    // The kernel's side.
    var children: map<Pid, nat>
    var forks: seq<Fork>
    var sent: seq<Sent>
    var exit: Option<Exit>

    ghost function View(): World
      reads this
    {
      World(restartEpoch, pidList, children, forks, sent, exit)
    }

    constructor ()
      ensures View() == START
    {
      restartEpoch, pidList, children, forks, sent, exit := 0, [], map[], [], [], None;
    }

    method SendAll(signal: Signal)
      modifies `sent
      ensures View() == KillAll(old(View()), signal, pidList)
    {
      var todo := pidList;
      ghost var whole := KillAll(View(), signal, pidList);
      while todo != []
        invariant whole == KillAll(View(), signal, todo)
      {
        var pid := todo[0];
        sent := sent + [Sent(signal, pid, if pid in children then Some(children[pid]) else None)];
        todo := todo[1..];
      }
    }

    /** os.waitpid(pid, WNOHANG): the status of a child that has ended, which is then reaped. */
    method Waitpid(pid: Pid, ended: map<Pid, Status>) returns (status: Option<Status>)
      requires pid in children
      modifies `children, `forks
      ensures status == if pid in ended then Some(ended[pid]) else None
      ensures status.None? ==> children == old(children) && forks == old(forks)
      ensures status.Some? ==>
                && children == old(children) - {pid}
                && forks == Reaped(old(forks), old(children)[pid], status.value)
    {
      if pid !in ended {
        return None;
      }
      status := Some(ended[pid]);
      forks := Reaped(forks, children[pid], ended[pid]);
      children := children - {pid};
    }

    method ForceKillAllChildren()
      modifies `sent, `pidList
      ensures View() == ForceKillAll(old(View()))
    {
      SendAll(KILL);
      pidList := [];
    }

    method ForkAndExec(fork: Option<Pid>)
      modifies this
      ensures View() == Forked(old(View()), fork)
    {
      var epoch := restartEpoch;
      restartEpoch := restartEpoch + 1;
      if fork.None? {
        exit := Some(Exit(1, ForkFailed));
        return;
      }
      children := children[fork.value := |forks|];
      forks := forks + [Fork(epoch, fork.value, None)];
      pidList := pidList + [fork.value];
    }

    method SigusrHandler()
      modifies `sent
      ensures View() == Propagated(old(View()))
    {
      SendAll(USR1);
    }

    /**
     * The loop over a copy of the pid list, as in sigchld_handler; the rounds of
     * term_all_children are the same loop, and do not look at the result.
     */
    method ReapAll(ended: map<Pid, Status>) returns (killAllAndExit: bool)
      requires exit.None?
      modifies this
      ensures View() == PollAll(old(View()), old(pidList), ended)
      ensures exit.None? ==> (killAllAndExit <==> Abnormal(old(pidList), ended))
    {
      killAllAndExit := false;
      var todo := pidList;
      ghost var whole := PollAll(View(), pidList, ended);
      while todo != []
        invariant exit.None?
        invariant whole == PollAll(View(), todo, ended)
        invariant killAllAndExit || Abnormal(todo, ended) <==> Abnormal(old(pidList), ended)
      {
        var pid := todo[0];
        AbnormalCons(todo, ended);
        if pid !in children {
          exit := Some(Exit(1, WaitFailed));
          return;
        }
        var status := Waitpid(pid, ended);
        todo := todo[1..];
        if status.None? {
          continue;
        }
        pidList := RemoveFirst(pidList, pid);
        if status.value.Exited? {
          if status.value.code != 0 {
            killAllAndExit := true;
          }
        } else {
          killAllAndExit := true;
        }
      }
    }

    method SigchldHandler(ended: map<Pid, Status>)
      requires exit.None?
      modifies this
      ensures View() == ChildDied(old(View()), ended)
    {
      var killAllAndExit := ReapAll(ended);
      if exit.Some? {
        return;
      }
      if killAllAndExit {
        ForceKillAllChildren();
      }
      if pidList == [] {
        exit := Some(Exit(if killAllAndExit then 1 else 0, LastChildDied));
      }
    }

    /** The polling loop of term_all_children. */
    method AwaitChildren(rounds: nat -> map<Pid, Status>) returns (allExited: bool)
      requires exit.None?
      modifies this
      ensures View() == Awaited(old(View()), rounds, 0)
      ensures exit.None? ==> (allExited <==> pidList == [])
    {
      allExited := false;
      var retries := 0;
      ghost var whole := Awaited(View(), rounds, 0);
      while !allExited && retries < TERM_WAIT_SECONDS
        invariant exit.None? && retries <= TERM_WAIT_SECONDS
        invariant allExited ==> pidList == [] && whole == View()
        invariant !allExited ==> whole == Awaited(View(), rounds, retries) && (pidList != [] || retries == 0)
        decreases TERM_WAIT_SECONDS - retries, !allExited
      {
        var _ := ReapAll(rounds(retries));
        if exit.Some? {
          return;
        }
        if pidList == [] {
          allExited := true;
        } else {
          retries := retries + 1;
        }
      }
    }

    /** shutdown, from the SIGTERM and SIGINT handlers. It always returns. */
    method Shutdown(rounds: nat -> map<Pid, Status>)
      requires exit.None?
      modifies this
      ensures View() == Terminated(old(View()), rounds)
      ensures exit.Some?
    {
      SendAll(TERM);
      var allExited := AwaitChildren(rounds);
      if exit.Some? {
        return;
      }
      if !allExited {
        ForceKillAllChildren();
        exit := Some(Exit(1, ShutDown));
        return;
      }
      exit := Some(Exit(0, ShutDown));
    }
  }

  lemma AbnormalCons(pids: seq<Pid>, ended: map<Pid, Status>)
    requires pids != []
    ensures Abnormal(pids, ended) <==>
              (pids[0] in ended && ended[pids[0]] != Exited(0)) || Abnormal(pids[1..], ended)
  {
    if Abnormal(pids, ended) {
      var i :| 0 <= i < |pids| && pids[i] in ended && ended[pids[i]] != Exited(0);
      assert i > 0 ==> pids[1..][i - 1] == pids[i];
    }
    if Abnormal(pids[1..], ended) {
      var i :| 0 <= i < |pids[1..]| && pids[1..][i] in ended && ended[pids[1..][i]] != Exited(0);
      assert pids[i + 1] == pids[1..][i];
    }
  }
}
