/** What each step of the scheduler does to every task, said task by task, and what becomes of tasks
    that fork, exit or are killed. */
module Outcomes {
  import opened Utils
  import opened Sched

  /** The same task: its pid, parent and address space never change. */
  ghost predicate Same<T>(s: Sched<T>, s': Sched<T>, t: T) {
    && t in s.recs && t in s'.recs
    && s'.recs[t].pid == s.recs[t].pid && s'.recs[t].ppid == s.recs[t].ppid && s'.recs[t].cr3 == s.recs[t].cr3
  }

  /** create_process: a waiting task more; nothing else changes. */
  lemma CreateOutcome<T>(s: Sched<T>, t: T, space: nat)
    requires WellFormed(s) && t !in s.list
    ensures Step(s, Create(t, space)).Ok?
    ensures var s' := Step(s, Create(t, space)).s;
      && t in s'.recs && s'.recs[t].state == Waiting && s'.recs[t].cr3 == space
      && s'.running == s.running && s'.cr3 == s.cr3
      && forall u :: u in s.list ==> Same(s, s', u) && s'.recs[u].state == s.recs[u].state
  {
    hide NoDuplicates, NewPid, MarkUsed;
  }

  /** proc_fork: the child runs, under its own root; the forking task waits, unless it had ended; no
      other task changes. */
  lemma ForkOutcome<T>(s: Sched<T>, c: T, space: nat)
    requires WellFormed(s) && c !in s.list
    ensures Step(s, Fork(c, space)).Ok?
    ensures var s' := Step(s, Fork(c, space)).s;
      && s'.running == c && s'.cr3 == space
      && c in s'.recs && s'.recs[c].state == Running && s'.recs[c].cr3 == space
      && (forall u :: u in s.list ==> Same(s, s', u))
      && s'.recs[s.running].state == (if s.recs[s.running].state == Ended then Ended else Waiting)
      && forall u :: u in s.list && u != s.running ==> s'.recs[u].state == s.recs[u].state
  {
    hide NoDuplicates, NewPid, MarkUsed;
  }

  /** sanexecve: the new image runs, under its own root; the caller has ended; no other task changes. */
  lemma ExecOutcome<T>(s: Sched<T>, t: T, space: nat)
    requires WellFormed(s) && t !in s.list
    ensures Step(s, Exec(t, space)).Ok?
    ensures var s' := Step(s, Exec(t, space)).s;
      && s'.running == t && s'.cr3 == space
      && t in s'.recs && s'.recs[t].state == Running && s'.recs[t].cr3 == space
      && (forall u :: u in s.list ==> Same(s, s', u))
      && s'.recs[s.running].state == Ended
      && forall u :: u in s.list && u != s.running ==> s'.recs[u].state == s.recs[u].state
  {
    hide NoDuplicates, NewPid, MarkUsed;
  }

  /** Position `i` holds the first task of the list with this pid. */
  ghost predicate FirstAt<T>(s: Sched<T>, pid: nat, i: nat)
    requires WellFormed(s)
  {
    && i < |s.list| && s.recs[s.list[i]].pid == pid
    && forall j :: 0 <= j < i ==> s.recs[s.list[j]].pid != pid
  }

  /** Task `t` is that task. */
  ghost predicate FirstWithPid<T>(s: Sched<T>, pid: nat, t: T)
    requires WellFormed(s)
  {
    exists i: nat :: FirstAt(s, pid, i) && s.list[i] == t
  }

  /** The state of `t` when the yield inside an exit, a kill or a yield starts: an exit makes the
      running task a zombie, a kill ends the first task with that pid. */
  ghost function Then<T>(s: Sched<T>, ev: Event<T>, t: T): TaskState
    requires WellFormed(s) && t in s.list
  {
    if ev.Exit? && t == s.running then Zombie
    else if ev.Kill? && FirstWithPid(s, ev.pid, t) then Ended
    else s.recs[t].state
  }

  lemma FindsFirst<T>(s: Sched<T>, pid: nat, t: T)
    requires WellFormed(s) && t in s.list
    ensures FirstWithPid(s, pid, t) <==>
      FindPid(s.list, s.recs, pid, 0) < |s.list| && s.list[FindPid(s.list, s.recs, pid, 0)] == t
  {
    var k := FindPid(s.list, s.recs, pid, 0);
    hide NoDuplicates, FindPid;
    if k < |s.list| { assert FirstAt(s, pid, k); }
    if i: nat :| FirstAt(s, pid, i) && s.list[i] == t {
      assert i == k;
    }
  }

  lemma ThenIs<T>(s: Sched<T>, ev: Event<T>, t: T)
    requires WellFormed(s) && Yields(ev) && t in s.list
    ensures Same(s, BeforeYield(s, ev), t) && BeforeYield(s, ev).recs[t].state == Then(s, ev, t)
  {
    hide NoDuplicates, FindPid, FirstWithPid;
    if ev.Kill? { FindsFirst(s, ev.pid, t); }
  }

  /** exit, kill and yield, when position `i` is the first after init to wait, or the end if none does.
      If none does, nothing more happens. Otherwise that task runs, under its own root; init waits,
      unless it has ended; no other task changes. */
  lemma YieldOutcome<T>(s: Sched<T>, ev: Event<T>, i: nat)
    requires WellFormed(s) && Enabled(s, ev) && Yields(ev) && Step(s, ev).Ok? && 1 <= i <= |s.list|
    requires forall j :: 1 <= j < i ==> Then(s, ev, s.list[j]) != Waiting
    requires i < |s.list| ==> Then(s, ev, s.list[i]) == Waiting
    ensures var s' := Step(s, ev).s;
      && (forall t :: t in s.list ==> Same(s, s', t))
      && if i == |s.list| then
           && s'.running == s.running && s'.cr3 == s.cr3 && s'.list == s.list
           && forall t :: t in s.list ==> s'.recs[t].state == Then(s, ev, t)
         else
           var picked, init := s.list[i], s.list[0];
           && s'.running == picked && s'.cr3 == s.recs[picked].cr3 && s'.recs[picked].state == Running
           && s'.recs[init].state == (if Then(s, ev, init) == Ended then Ended else Waiting)
           && forall t :: t in s.list && t != picked && t != init ==> s'.recs[t].state == Then(s, ev, t)
  {
    var b := BeforeYield(s, ev);
    forall t | t in s.list
      ensures Same(s, b, t) && b.recs[t].state == Then(s, ev, t)
    {
      ThenIs(s, ev, t);
    }
    YieldPicks(b, i);
    hide NoDuplicates, BeforeYield, YieldStep, Then, FirstWaiting;
  }

  /** The bare yield. */
  lemma YieldPicks<T>(b: Sched<T>, i: nat)
    requires WellFormed(b) && YieldStep(b).Ok? && 1 <= i <= |b.list|
    requires forall j :: 1 <= j < i ==> b.recs[b.list[j]].state != Waiting
    requires i < |b.list| ==> b.recs[b.list[i]].state == Waiting
    ensures var s' := YieldStep(b).s;
      && (forall t :: t in b.list ==> Same(b, s', t))
      && if i == |b.list| then s' == b
         else
           var picked, init := b.list[i], b.list[0];
           && s'.running == picked && s'.cr3 == b.recs[picked].cr3 && s'.recs[picked].state == Running
           && s'.recs[init].state == (if b.recs[init].state == Ended then Ended else Waiting)
           && forall t :: t in b.list && t != picked && t != init ==> s'.recs[t].state == b.recs[t].state
  {
    hide MoveToEnd;
    var k := FirstWaiting(b.list, b.recs, 1);
    assert k == i;
    if i < |b.list| { assert b.list[i] != b.list[0]; }
  }

  // ---- Exit and kill -----------------------------------------------------------------------

  /** Some position is the first to wait, or none does. */
  lemma FirstToWait<T>(s: Sched<T>, ev: Event<T>, from: nat) returns (i: nat)
    requires WellFormed(s) && from <= |s.list|
    ensures from <= i <= |s.list| && (forall j :: from <= j < i ==> Then(s, ev, s.list[j]) != Waiting)
    ensures i < |s.list| ==> Then(s, ev, s.list[i]) == Waiting
    decreases |s.list| - from
  {
    hide Then, NoDuplicates;
    if from == |s.list| || Then(s, ev, s.list[from]) == Waiting {
      i := from;
    } else {
      i := FirstToWait(s, ev, from + 1);
    }
  }

  /** Whoever is dead when the yield inside an exit, kill or yield starts is so after it, in the same way. */
  lemma DeadAfter<T>(s: Sched<T>, ev: Event<T>, t: T)
    requires Inv(s) && Enabled(s, ev) && Yields(ev) && Step(s, ev).Ok? && t in s.list
    requires Then(s, ev, t) == Ended || (Then(s, ev, t) == Zombie && t != s.list[0])
    ensures Step(s, ev).s.recs.Keys >= {t} && Step(s, ev).s.recs[t].state == Then(s, ev, t)
  {
    hide Step, NoDuplicates, Then;
    var i := FirstToWait(s, ev, 1);
    YieldOutcome(s, ev, i);
    assert Same(s, Step(s, ev).s, t);
  }

  /** killprocess ends the first task with that pid, whatever its state. */
  lemma KillEnds<T>(s: Sched<T>, pid: nat, t: T)
    requires Inv(s) && Step(s, Kill(pid)).Ok? && t in s.list && FirstWithPid(s, pid, t)
    ensures t in Step(s, Kill(pid)).s.recs && Step(s, Kill(pid)).s.recs[t].state == Ended
  {
    hide Step, FirstWithPid, NoDuplicates;
    DeadAfter(s, Kill(pid), t);
  }

  /** syss_exit makes the running task a zombie, whatever its state. */
  lemma ExitZombie<T>(s: Sched<T>)
    requires Inv(s) && Step(s, Exit).Ok?
    ensures s.running in Step(s, Exit).s.recs && Step(s, Exit).s.recs[s.running].state == Zombie
  {
    hide Step, NoDuplicates;
    DeadAfter(s, Exit, s.running);
  }

  /** A dead task that is not running never runs again, whatever happens. */
  lemma {:induction false} GoneForGood<T>(ss: seq<Sched<T>>, evs: seq<Event<T>>, t: T, j: nat, k: nat)
    requires Run(ss, evs) && j <= k <= |evs| && WellFormed(ss[j]) && Dead(ss[j], t) && ss[j].running != t
    ensures Inv(ss[k]) && Dead(ss[k], t) && ss[k].running != t
    ensures ss[j].recs[t].state == Ended ==> ss[k].recs[t].state == Ended
    ensures k < |evs| ==> !Dispatches(ss[k], evs[k], t)
    decreases k
  {
    hide Step, Inv, Dispatches, Dead;
    RunKeepsInv(ss, evs, k);
    if j < k {
      GoneForGood(ss, evs, t, j, k - 1);
      assert StepsTo(ss[k - 1], evs[k - 1], ss[k - 1 + 1]);
      StaysGone(ss[k - 1], evs[k - 1], t);
    }
    if k < |evs| {
      assert StepsTo(ss[k], evs[k], ss[k + 1]);
      DeadInList(ss[k], t);
      DeadNotDispatched(ss[k], evs[k], t);
    }
  }

  lemma DeadInList<T>(s: Sched<T>, t: T)
    requires WellFormed(s) && Dead(s, t)
    ensures t in s.list
  {
  }

  lemma StaysGone<T>(s: Sched<T>, ev: Event<T>, t: T)
    requires Inv(s) && Enabled(s, ev) && Step(s, ev).Ok? && Dead(s, t) && s.running != t
    ensures Dead(Step(s, ev).s, t) && Step(s, ev).s.running != t
    ensures s.recs[t].state == Ended ==> Step(s, ev).s.recs[t].state == Ended
  {
    hide Step, NoDuplicates, Then;
    DeadStepIff(s, ev, t);
    match ev
    case Create(u, space) => CreateOutcome(s, u, space);
    case Fork(u, space) => ForkOutcome(s, u, space);
    case Exec(u, space) => ExecOutcome(s, u, space);
    case _ =>
      var i := FirstToWait(s, ev, 1);
      YieldOutcome(s, ev, i);
      ThenDead(s, ev, t);
      assert Same(s, Step(s, ev).s, t);
  }

  lemma ThenDead<T>(s: Sched<T>, ev: Event<T>, t: T)
    requires WellFormed(s) && Dead(s, t) && s.running != t
    ensures Then(s, ev, t) != Waiting && (s.recs[t].state == Ended ==> Then(s, ev, t) == Ended)
  {
  }

  /** A killed task that another one has taken over from stays ENDED and is never dispatched again. */
  lemma KilledForGood<T>(ss: seq<Sched<T>>, evs: seq<Event<T>>, pid: nat, t: T, j: nat, k: nat)
    requires Run(ss, evs) && j < k <= |evs| && evs[j] == Kill(pid) && WellFormed(ss[j]) && t in ss[j].list
    requires FirstWithPid(ss[j], pid, t) && ss[j + 1].running != t
    ensures WellFormed(ss[k]) && t in ss[k].recs && ss[k].recs[t].state == Ended && ss[k].running != t
    ensures k < |evs| ==> !Dispatches(ss[k], evs[k], t)
  {
    hide Step, Inv, Dispatches, FirstWithPid;
    RunKeepsInv(ss, evs, j);
    RunKeepsInv(ss, evs, j + 1);
    InvWellFormed(ss[j + 1]);
    assert StepsTo(ss[j], evs[j], ss[j + 1]);
    KillEnds(ss[j], pid, t);
    GoneForGood(ss, evs, t, j + 1, k);
    InvWellFormed(ss[k]);
  }

  /** Some other task than init and `t` waits. */
  ghost predicate AnotherWaits<T>(s: Sched<T>, t: T)
    requires WellFormed(s)
  {
    exists i :: 1 <= i < |s.list| && s.list[i] != t && s.recs[s.list[i]].state == Waiting
  }

  /** Whether another task has taken over after a kill: exactly if the killed one was not running, or
      another task was waiting. */
  lemma KillTakesOverIff<T>(s: Sched<T>, pid: nat, t: T)
    requires Inv(s) && Step(s, Kill(pid)).Ok? && t in s.list && FirstWithPid(s, pid, t)
    ensures Step(s, Kill(pid)).s.running != t <==> s.running != t || AnotherWaits(s, t)
  {
    hide Step, NoDuplicates, FirstWithPid;
    var ev := Event<T>.Kill(pid);
    var i := FirstToWait(s, ev, 1);
    YieldOutcome(s, ev, i);
    forall u | u in s.list && u != t ensures Then(s, ev, u) == s.recs[u].state {
      OnlyFirst(s, pid, t, u);
    }
  }

  lemma OnlyFirst<T>(s: Sched<T>, pid: nat, t: T, u: T)
    requires WellFormed(s) && FirstWithPid(s, pid, t) && u != t
    ensures !FirstWithPid(s, pid, u)
  {
  }

  /** So does a task that exits while another one is there to take over. */
  lemma ExitedForGood<T>(ss: seq<Sched<T>>, evs: seq<Event<T>>, j: nat, k: nat)
    requires Run(ss, evs) && j < k <= |evs| && evs[j] == Exit && ss[j + 1].running != ss[j].running
    ensures WellFormed(ss[k]) && Dead(ss[k], ss[j].running) && ss[k].running != ss[j].running
    ensures k < |evs| ==> !Dispatches(ss[k], evs[k], ss[j].running)
  {
    hide Step, Inv, Dispatches;
    RunKeepsInv(ss, evs, j);
    RunKeepsInv(ss, evs, j + 1);
    InvWellFormed(ss[j + 1]);
    assert StepsTo(ss[j], evs[j], ss[j + 1]);
    ExitZombie(ss[j]);
    GoneForGood(ss, evs, ss[j].running, j + 1, k);
    InvWellFormed(ss[k]);
  }

  /** Init and the shell, which runs in this state. */
  ghost predicate ShellAlone<T>(s: Sched<T>, init: T, shell: T, state: TaskState) {
    && Inv(s) && LastBusy(s) && s.list == [init, shell] && s.running == shell && init != shell
    && s.recs[shell].state == state && s.recs[shell].pid == 2 && s.recs[init].pid == 1
    && s.recs[init].state == Waiting
  }

  lemma ShellKilled<T>(s: Sched<T>, init: T, shell: T)
    requires ShellAlone(s, init, shell, Running)
    ensures Step(s, Kill(2)).Ok? && ShellAlone(Step(s, Kill(2)).s, init, shell, Ended)
  {
    hide Step, NoDuplicates;
    StepKeepsLastBusy(s, Kill(2));
    assert s.list[0] == init && s.list[1] == shell;
    assert FirstAt(s, 2, 1);
    YieldOutcome(s, Kill(2), 2);
    OnlyFirst(s, 2, shell, init);
    assert Same(s, Step(s, Kill(2)).s, init) && Same(s, Step(s, Kill(2)).s, shell);
  }

  lemma ShellExits<T>(s: Sched<T>, init: T, shell: T)
    requires ShellAlone(s, init, shell, Ended)
    ensures Step(s, Exit).Ok? && ShellAlone(Step(s, Exit).s, init, shell, Zombie)
  {
    hide Step, NoDuplicates;
    StepKeepsLastBusy(s, Exit);
    assert s.list[0] == init && s.list[1] == shell;
    YieldOutcome(s, Exit, 2);
    assert Same(s, Step(s, Exit).s, init) && Same(s, Step(s, Exit).s, shell);
  }

  lemma ZombieBack<T>(s: Sched<T>, init: T, shell: T, c: T, space: nat)
    requires ShellAlone(s, init, shell, Zombie) && c != init && c != shell
    ensures Enabled(s, Fork(c, space)) && Step(s, Fork(c, space)).Ok?
    ensures var s' := Step(s, Fork(c, space)).s;
      WellFormed(s') && Step(s', Yield).Ok? && Dispatches(s', Yield, shell)
  {
    hide Step, NoDuplicates;
    assert s.list[0] == init && s.list[1] == shell;
    StepKeepsLastBusy(s, Fork(c, space));
    StepShape(s, Fork(c, space));
    ForkOutcome(s, c, space);
    var s' := Step(s, Fork(c, space)).s;
    StepKeepsLastBusy(s', Yield);
    hide LastBusy, Inv;
    assert s'.list[1] == shell && s'.recs[shell].state == Waiting;
    PicksSecond(s');
  }

  lemma PicksSecond<T>(s: Sched<T>)
    requires WellFormed(s) && |s.list| > 1 && s.recs[s.list[1]].state == Waiting
    ensures Dispatches(s, Yield, s.list[1])
  {
  }

  /** Without one it can come back: the shell kills itself, goes on, exits, goes on, forks, and the
      next yield dispatches it. */
  lemma KilledDispatched<T>(s: Sched<T>, init: T, shell: T, kernelSpace: nat, shellSpace: nat, c: T, space: nat)
    requires Booted(s, init, shell, kernelSpace, shellSpace) && c != init && c != shell
    ensures WellFormed(s) && Step(s, Kill(2)).Ok?
    ensures var s1 := Step(s, Kill(2)).s;
      && WellFormed(s1) && shell in s1.recs && s1.recs[shell].state == Ended && Step(s1, Exit).Ok?
      && var s2 := Step(s1, Exit).s;
         && WellFormed(s2) && Enabled(s2, Fork(c, space)) && Step(s2, Fork(c, space)).Ok?
         && var s3 := Step(s2, Fork(c, space)).s;
            WellFormed(s3) && Step(s3, Yield).Ok? && Dispatches(s3, Yield, shell)
  {
    hide Step, NoDuplicates, Dispatches;
    BootKeepsInv(s, init, shell, kernelSpace, shellSpace);
    ShellKilled(s, init, shell);
    var s1 := Step(s, Kill(2)).s;
    ShellExits(s1, init, shell);
    var s2 := Step(s1, Exit).s;
    ZombieBack(s2, init, shell, c, space);
  }

  // ---- Fork --------------------------------------------------------------------------------

  lemma {:induction false} YieldedFrom<T>(evs: seq<Event<T>>, j: nat, k: nat)
    requires j <= k <= |evs|
    ensures Yielded(evs[j..], k - j) == Yielded(evs, k) - Yielded(evs, j)
    decreases k
  {
    if j < k {
      YieldedFrom(evs, j, k - 1);
      assert evs[j..][k - 1 - j] == evs[k - 1];
    }
  }

  lemma TraceFrom<T>(ss: seq<Sched<T>>, evs: seq<Event<T>>, j: nat)
    requires Trace(ss, evs) && LastBusy(ss[0]) && NoCreate(evs) && j <= |evs|
    ensures Trace(ss[j..], evs[j..]) && LastBusy(ss[j..][0]) && NoCreate(evs[j..])
  {
    hide Inv, LastBusy, Attempts;
    NeverStuck(ss, evs, j);
    forall k | 0 <= k < |evs[j..]|
      ensures Attempts(ss[j..][k], evs[j..][k], ss[j..][k + 1])
    {
      assert ss[j..][k + 1] == ss[j + k + 1];
      assert Attempts(ss[j + k], evs[j + k], ss[j + k + 1]);
    }
  }

  /** A fork leaves its caller where it is in the list, waiting. */
  lemma ForkerWaits<T>(s: Sched<T>, c: T, space: nat, i: nat)
    requires WellFormed(s) && c !in s.list && s.recs[s.running].state != Ended
    requires i < |s.list| && s.list[i] == s.running
    ensures Step(s, Fork(c, space)).Ok?
    ensures var s' := Step(s, Fork(c, space)).s;
      i < |s'.list| && s'.list[i] == s.running && s.running in s'.recs && s'.recs[s.running].state == Waiting
  {
    hide Step, NoDuplicates, Without, Picks;
    ForkOutcome(s, c, space);
    StepShape(s, Fork(c, space));
  }

  ghost predicate NotKilled<T>(ss: seq<Sched<T>>, evs: seq<Event<T>>, t: T, from: nat)
    requires |ss| > |evs|
  {
    forall k :: from <= k < |evs| && WellFormed(ss[k]) ==> !Kills(ss[k], evs[k], t)
  }

  /** One of the first `i` yields from step `from` on picks `t`. */
  ghost predicate PickedWithin<T>(ss: seq<Sched<T>>, evs: seq<Event<T>>, t: T, from: nat, i: nat)
    requires |ss| > |evs| >= from
  {
    exists k ::
      from <= k < |evs| && Yielded(evs, k) - Yielded(evs, from) < i && WellFormed(ss[k]) && Picks(ss[k], evs[k], t)
  }

  lemma PickedFrom<T>(ss: seq<Sched<T>>, evs: seq<Event<T>>, t: T, from: nat, i: nat)
    requires Trace(ss, evs) && LastBusy(ss[0]) && NoCreate(evs) && from <= |evs|
    requires WellFormed(ss[from]) && 1 <= i < |ss[from].list| && ss[from].list[i] == t
    requires ss[from].recs[t].state == Waiting
    requires Yielded(evs, |evs|) - Yielded(evs, from) >= i && NotKilled(ss, evs, t, from)
    ensures PickedWithin(ss, evs, t, from, i)
  {
    hide Inv, LastBusy, Kills, Picks, Attempts, WellFormed, NoCreate, Yielded;
    TraceFrom(ss, evs, from);
    var tail, rest := ss[from..], evs[from..];
    YieldedFrom(evs, from, |evs|);
    forall k | 0 <= k < |rest| && WellFormed(tail[k])
      ensures !Kills(tail[k], rest[k], t)
    {
      assert tail[k] == ss[from + k] && rest[k] == evs[from + k];
    }
    hide Trace, NotKilled;
    BoundedWaiting(tail, rest, i);
    var k :| 0 <= k < |rest| && Yielded(rest, k) < i && WellFormed(tail[k]) && Picks(tail[k], rest[k], t);
    YieldedFrom(evs, from, from + k);
    assert tail[k] == ss[from + k] && rest[k] == evs[from + k];
  }

  /** From boot: a task that forks, unless it had ended, waits, and unless it is killed it is picked
      again within as many yields as its place in the list. */
  lemma ForkerPickedAgain<T>(ss: seq<Sched<T>>, evs: seq<Event<T>>, j: nat, i: nat)
    requires Trace(ss, evs) && LastBusy(ss[0]) && NoCreate(evs) && j < |evs| && evs[j].Fork?
    requires WellFormed(ss[j]) && ss[j].recs[ss[j].running].state != Ended
    requires 1 <= i < |ss[j].list| && ss[j].list[i] == ss[j].running
    requires Yielded(evs, |evs|) - Yielded(evs, j + 1) >= i && NotKilled(ss, evs, ss[j].running, j + 1)
    ensures PickedWithin(ss, evs, ss[j].running, j + 1, i)
  {
    hide Step, Inv, LastBusy, PickedWithin, Attempts, NotKilled, NoCreate, Yielded;
    NeverStuck(ss, evs, j);
    NeverStuck(ss, evs, j + 1);
    InvWellFormed(ss[j + 1]);
    assert StepsTo(ss[j], evs[j], ss[j + 1]);
    ForkerWaits(ss[j], evs[j].child, evs[j].space, i);
    PickedFrom(ss, evs, ss[j].running, j + 1, i);
  }
}
