/** The scheduler of sys/task.c as a step system: a task list headed by init, states, pids and
    first-waiting-then-rotate selection, and what every run of it keeps. */
module Sched {
  import opened Utils

  datatype TaskState = Waiting | Running | Ended | Zombie | WaitForChild

  /** The fields of struct Task that the scheduler reads. */
  datatype Rec = Rec(pid: nat, ppid: nat, state: TaskState, cr3: nat)

  /** `list` from `current` (init) along `next`, `running` is currentRunningTask, `used` is the
      processID array, `cr3` the register. Tasks are never freed. */
  datatype Sched<T> = Sched(list: seq<T>, recs: map<T, Rec>, running: T, used: seq<bool>, cr3: nat)

  /** A step either completes or follows a null `next` in moveProcessToEnd and never does. */
  datatype Outcome<T> = Stuck | Ok(s: Sched<T>)

  datatype Event<T> =
    | Create(task: T, space: nat)
    | Fork(child: T, space: nat)
    | Exec(image: T, space: nat)
    | Exit
    | Kill(pid: nat)
    | Yield

  // ---- Steps -----------------------------------------------------------------------------

  /** getProcessID: the first unused id from `id` on, or -1 stored in a uint16_t. */
  function FirstUnused(used: seq<bool>, id: nat): (r: nat)
    requires |used| == 100 && 1 <= id <= 100
    decreases 100 - id
  {
    if id == 100 then 0xFFFF else if !used[id] then id else FirstUnused(used, id + 1)
  }

  function NewPid(used: seq<bool>): nat
    requires |used| == 100
  {
    FirstUnused(used, 1)
  }

  function MarkUsed(used: seq<bool>, pid: nat): (r: seq<bool>)
    requires |used| == 100
    ensures |r| == 100
  {
    if pid < 100 then used[pid := true] else used
  }

  /** The first waiting task at or after position `i`, or the length of the list. */
  function FirstWaiting<T>(list: seq<T>, recs: map<T, Rec>, i: nat): (r: nat)
    requires i <= |list| && forall t :: t in list ==> t in recs
    ensures i <= r <= |list|
    ensures r < |list| ==> recs[list[r]].state == Waiting
    ensures forall j :: i <= j < r ==> recs[list[j]].state != Waiting
    decreases |list| - i
  {
    if i == |list| || recs[list[i]].state == Waiting then i else FirstWaiting(list, recs, i + 1)
  }

  function MoveToEnd<T>(list: seq<T>, i: nat): seq<T>
    requires i < |list|
  {
    list[..i] + list[i + 1..] + [list[i]]
  }

  /** The state updates of switchTask. */
  function Switch<T>(recs: map<T, Rec>, from: T, to: T): map<T, Rec>
    requires from in recs && to in recs
  {
    var r := recs[to := recs[to].(state := Running)];
    if r[from].state != Ended then r[from := r[from].(state := Waiting)] else r
  }

  /** switchTask: registers aside, the states, the running task and CR3. */
  ghost function SwitchTo<T>(s: Sched<T>, from: T, to: T): Sched<T>
    requires from in s.recs && to in s.recs
  {
    s.(recs := Switch(s.recs, from, to), running := to, cr3 := s.recs[to].cr3)
  }

  /** jump_to_user_mode. */
  ghost function Enter<T>(s: Sched<T>, t: T): Sched<T>
    requires t in s.recs
  {
    s.(recs := s.recs[t := s.recs[t].(state := Running)], running := t, cr3 := s.recs[t].cr3)
  }

  /** The list is well linked, starts with init, and holds every task, the running one included. */
  ghost predicate WellFormed<T>(s: Sched<T>) {
    && s.list != [] && NoDuplicates(s.list) && |s.used| == 100
    && (forall t :: t in s.list ==> t in s.recs) && (forall t :: t in s.recs ==> t in s.list)
    && s.running in s.list
  }

  /** yield: the next waiting task after init is moved to the end and switched to, from init. */
  ghost function YieldStep<T>(s: Sched<T>): Outcome<T>
    requires WellFormed(s)
  {
    var i := FirstWaiting(s.list, s.recs, 1);
    if i == |s.list| then Ok(s)
    else if i == |s.list| - 1 then Stuck
    else
      Ok(SwitchTo(s.(list := MoveToEnd(s.list, i)), s.list[0], s.list[i]))
  }

  /** A new task at the end of the list. */
  ghost function Append<T>(s: Sched<T>, t: T, ppid: nat, space: nat): Sched<T>
    requires WellFormed(s)
  {
    var pid := NewPid(s.used);
    s.(list := s.list + [t], recs := s.recs[t := Rec(pid, ppid, Waiting, space)], used := MarkUsed(s.used, pid))
  }

  /** The first task with this pid, or the length of the list. */
  function FindPid<T>(list: seq<T>, recs: map<T, Rec>, pid: nat, i: nat): (r: nat)
    requires i <= |list| && forall t :: t in list ==> t in recs
    ensures i <= r <= |list|
    ensures r < |list| ==> recs[list[r]].pid == pid
    ensures forall j :: i <= j < r ==> recs[list[j]].pid != pid
    decreases |list| - i
  {
    if i == |list| || recs[list[i]].pid == pid then i else FindPid(list, recs, pid, i + 1)
  }

  ghost function SetState<T>(s: Sched<T>, t: T, state: TaskState): (r: Sched<T>)
    requires WellFormed(s) && t in s.list
    ensures WellFormed(r)
  {
    s.(recs := s.recs[t := s.recs[t].(state := state)])
  }

  ghost predicate Enabled<T>(s: Sched<T>, ev: Event<T>) {
    && (ev.Create? ==> ev.task !in s.list)
    && (ev.Fork? ==> ev.child !in s.list)
    && (ev.Exec? ==> ev.image !in s.list)
  }

  /** The state in which the yield inside an event starts. */
  ghost function BeforeYield<T>(s: Sched<T>, ev: Event<T>): (r: Sched<T>)
    requires WellFormed(s)
    ensures WellFormed(r) && r.list == s.list && r.running == s.running
  {
    match ev
    case Exit => SetState(s, s.running, Zombie)
    case Kill(pid) =>
      var i := FindPid(s.list, s.recs, pid, 0);
      if i < |s.list| then SetState(s, s.list[i], Ended) else s
    case _ => s
  }

  predicate Yields<T>(ev: Event<T>) {
    ev.Exit? || ev.Kill? || ev.Yield?
  }

  ghost function Step<T>(s: Sched<T>, ev: Event<T>): Outcome<T>
    requires WellFormed(s) && Enabled(s, ev)
  {
    match ev
    case Create(t, space) => Ok(Append(s, t, s.recs[s.list[0]].pid, space))
    case Fork(t, space) => Ok(SwitchTo(Append(s, t, s.recs[s.running].pid, space), s.running, t))
    case Exec(t, space) => Ok(Enter(Append(SetState(s, s.running, Ended), t, s.recs[s.running].ppid, space), t))
    case _ => YieldStep(BeforeYield(s, ev))
  }

  /** The task a yield picks. */
  ghost predicate Picks<T>(s: Sched<T>, ev: Event<T>, t: T)
    requires WellFormed(s)
  {
    var b := BeforeYield(s, ev);
    var i := FirstWaiting(b.list, b.recs, 1);
    Yields(ev) && i < |b.list| && b.list[i] == t
  }

  /** The task an event makes the running one. */
  ghost predicate Dispatches<T>(s: Sched<T>, ev: Event<T>, t: T)
    requires WellFormed(s)
  {
    match ev
    case Create(_, _) => false
    case Fork(c, _) => t == c
    case Exec(c, _) => t == c
    case _ => Picks(s, ev, t)
  }

  // ---- The list --------------------------------------------------------------------------

  /** `list` without `x`. */
  ghost function Without<T>(list: seq<T>, x: T): seq<T> {
    if list == [] then [] else (if list[0] == x then [] else [list[0]]) + Without(list[1..], x)
  }

  lemma {:induction false} WithoutAbsent<T>(list: seq<T>, x: T)
    requires x !in list
    ensures Without(list, x) == list
  {
    if list != [] {
      WithoutAbsent(list[1..], x);
    }
  }

  lemma {:induction false} WithoutConcat<T>(a: seq<T>, b: seq<T>, x: T)
    ensures Without(a + b, x) == Without(a, x) + Without(b, x)
  {
    if a == [] {
      assert a + b == b;
    } else {
      assert (a + b)[1..] == a[1..] + b;
      WithoutConcat(a[1..], b, x);
    }
  }

  lemma WithoutMoved<T>(a: seq<T>, x: T, b: seq<T>)
    ensures Without(a + b + [x], x) == Without(a + ([x] + b), x)
  {
    WithoutConcat(a, [x] + b, x);
    WithoutConcat([x], b, x);
    WithoutConcat(a + b, [x], x);
    WithoutConcat(a, b, x);
  }

  lemma MovedAt<T>(list: seq<T>, i: nat, j: nat)
    requires i < |list| && j < |list|
    ensures |MoveToEnd(list, i)| == |list|
    ensures MoveToEnd(list, i)[j] == list[if j == |list| - 1 then i else if j < i then j else j + 1]
  {
  }

  lemma MovedElements<T>(list: seq<T>, i: nat)
    requires i < |list|
    ensures |MoveToEnd(list, i)| == |list| && MoveToEnd(list, i)[|list| - 1] == list[i]
    ensures forall j :: 0 <= j < |list| - 1 ==> MoveToEnd(list, i)[j] == list[if j < i then j else j + 1]
    ensures forall t :: t in MoveToEnd(list, i) ==> t in list
    ensures forall t :: t in list ==> t in MoveToEnd(list, i)
  {
    var m := MoveToEnd(list, i);
    forall t | t in list
      ensures t in m
    {
      var k :| 0 <= k < |list| && list[k] == t;
      assert m[if k < i then k else if k == i then |list| - 1 else k - 1] == t;
    }
  }

  lemma MovedDistinct<T>(list: seq<T>, i: nat)
    requires NoDuplicates(list) && i < |list|
    ensures NoDuplicates(MoveToEnd(list, i))
  {
    MovedElements(list, i);
    hide MoveToEnd;
    var m, n := MoveToEnd(list, i), |list|;
    forall j, k | 0 <= j < k < n
      ensures m[j] != m[k]
    {
      var j', k' := if j < i then j else j + 1, if k == n - 1 then i else if k < i then k else k + 1;
      assert m[j] == list[j'] && m[k] == list[k'] && j' != k';
      assert list[if j' < k' then j' else k'] != list[if j' < k' then k' else j'];
    }
  }

  lemma SplitAt<T>(list: seq<T>, i: nat)
    requires i < |list|
    ensures list == list[..i] + ([list[i]] + list[i + 1..])
  {
  }

  /** Moving one task to the end keeps the order of all the others. */
  lemma MovedOrder<T>(list: seq<T>, i: nat)
    requires i < |list|
    ensures Without(MoveToEnd(list, i), list[i]) == Without(list, list[i])
  {
    hide Without;
    SplitAt(list, i);
    WithoutMoved(list[..i], list[i], list[i + 1..]);
  }

  lemma YieldKeepsList<T>(s: Sched<T>)
    requires WellFormed(s) && YieldStep(s).Ok?
    ensures var s' := YieldStep(s).s; var i := FirstWaiting(s.list, s.recs, 1);
            && WellFormed(s') && s'.list[0] == s.list[0] && |s'.list| == |s.list|
            && (forall t :: t in s.list ==> t in s'.list)
            && (if i == |s.list| then s' == s
                else s'.running == s.list[i] == s'.list[|s'.list| - 1] && s'.list != s.list
                     && Without(s'.list, s.list[i]) == Without(s.list, s.list[i]))
  {
    var i := FirstWaiting(s.list, s.recs, 1);
    if i < |s.list| {
      MovedDistinct(s.list, i);
      MovedOrder(s.list, i);
      MovedElements(s.list, i);
      hide MoveToEnd, Without;
      assert MoveToEnd(s.list, i)[i] == s.list[i + 1] != s.list[i];
    }
  }

  /** What one completed step does to the list: a new task goes to the end, a yield moves the task
      it picks there, and nothing else changes. */
  lemma StepShape<T>(s: Sched<T>, ev: Event<T>)
    requires WellFormed(s) && Enabled(s, ev) && Step(s, ev).Ok?
    ensures var s' := Step(s, ev).s;
            && WellFormed(s') && s'.list[0] == s.list[0] && (forall t :: t in s.list ==> t in s'.list)
            && match ev
               case Create(t, _) => s'.list == s.list + [t] && s'.running == s.running
               case Fork(t, _) => s'.list == s.list + [t] && s'.running == t
               case Exec(t, _) => s'.list == s.list + [t] && s'.running == t
               case _ =>
                 if s'.list == s.list then s'.running == s.running && forall t :: t in s.list ==> !Picks(s, ev, t)
                 else Picks(s, ev, s'.running) && s'.list[|s'.list| - 1] == s'.running
                      && Without(s'.list, s'.running) == Without(s.list, s'.running)
  {
    if Yields(ev) {
      YieldKeepsList(BeforeYield(s, ev));
      hide YieldStep, Without;
    }
  }

  /** A yield gets stuck exactly when the last task of the list is the only one after init that
      waits: then it is the one picked. */
  lemma StuckIff<T>(s: Sched<T>, ev: Event<T>)
    requires WellFormed(s) && Enabled(s, ev)
    ensures Step(s, ev).Stuck? <==> |s.list| > 1 && Picks(s, ev, s.list[|s.list| - 1])
    ensures Step(s, ev).Stuck? <==>
      && Yields(ev) && |s.list| > 1
      && forall j :: 1 <= j < |s.list| ==> (BeforeYield(s, ev).recs[s.list[j]].state == Waiting <==> j == |s.list| - 1)
  {
    if Yields(ev) {
      var b := BeforeYield(s, ev);
      var i := FirstWaiting(b.list, b.recs, 1);
      assert i < |b.list| - 1 ==> b.list[i] != b.list[|b.list| - 1];
    }
  }

  // ---- Invariants ------------------------------------------------------------------------

  /** What every run keeps besides the shape of the list: init is never dispatched and never a
      zombie, the running task is not waiting, and CR3 holds its address space. */
  ghost predicate Inv<T>(s: Sched<T>) {
    && WellFormed(s)
    && s.running != s.list[0]
    && s.recs[s.running].state != Waiting
    && s.recs[s.list[0]].state != Zombie
    && s.cr3 == s.recs[s.running].cr3
  }

  lemma BeforeYieldKeepsInv<T>(s: Sched<T>, ev: Event<T>)
    requires Inv(s)
    ensures Inv(BeforeYield(s, ev))
  {
  }

  lemma YieldKeepsInv<T>(s: Sched<T>)
    requires Inv(s) && YieldStep(s).Ok?
    ensures Inv(YieldStep(s).s)
  {
    YieldKeepsList(s);
    var i := FirstWaiting(s.list, s.recs, 1);
    if i < |s.list| { assert s.list[i] != s.list[0]; }
    hide Without, NoDuplicates, MoveToEnd, FirstWaiting;
  }

  lemma StepKeepsInv<T>(s: Sched<T>, ev: Event<T>)
    requires Inv(s) && Enabled(s, ev) && Step(s, ev).Ok?
    ensures Inv(Step(s, ev).s)
  {
    if Yields(ev) {
      BeforeYieldKeepsInv(s, ev);
      YieldKeepsInv(BeforeYield(s, ev));
      hide YieldStep, BeforeYield, Inv;
    } else {
      StepShape(s, ev);
      hide Without, NoDuplicates, YieldStep, BeforeYield, NewPid, MarkUsed;
    }
  }

  ghost predicate Dead<T>(s: Sched<T>, t: T) {
    t in s.recs && (s.recs[t].state == Ended || s.recs[t].state == Zombie)
  }

  /** No step dispatches a dead task. */
  lemma DeadNotDispatched<T>(s: Sched<T>, ev: Event<T>, t: T)
    requires WellFormed(s) && Enabled(s, ev) && Dead(s, t) && t in s.list
    ensures !Dispatches(s, ev, t)
  {
  }

  /** A fork issued by a zombie: a task that has exited but was left running for want of another. */
  ghost predicate ZombieForks<T>(s: Sched<T>, ev: Event<T>) {
    ev.Fork? && s.running in s.recs && s.recs[s.running].state == Zombie
  }

  lemma YieldKeepsDead<T>(s: Sched<T>, t: T)
    requires Inv(s) && YieldStep(s).Ok? && Dead(s, t)
    ensures Dead(YieldStep(s).s, t)
  {
  }

  /** Dead tasks stay dead in every step, except that a zombie that still issues a fork is put
      back to WAITING by the switch to its child. */
  lemma DeadStaysDeadIff<T>(s: Sched<T>, ev: Event<T>)
    requires Inv(s) && Enabled(s, ev) && Step(s, ev).Ok?
    ensures (forall t :: t in s.list && Dead(s, t) ==> Dead(Step(s, ev).s, t)) <==> !ZombieForks(s, ev)
  {
    if ZombieForks(s, ev) {
      assert Dead(s, s.running) && !Dead(Step(s, ev).s, s.running);
    } else if Yields(ev) {
      BeforeYieldKeepsInv(s, ev);
      forall t | t in s.list && Dead(s, t)
        ensures Dead(Step(s, ev).s, t)
      {
        YieldKeepsDead(BeforeYield(s, ev), t);
      }
      hide Dead;
    }
  }

  /** A fork that task `t` issues as a zombie. */
  ghost predicate Revives<T>(s: Sched<T>, ev: Event<T>, t: T) {
    ev.Fork? && s.running == t && t in s.recs && s.recs[t].state == Zombie
  }

  /** One dead task stays dead exactly when it does not itself fork as a zombie. */
  lemma DeadStepIff<T>(s: Sched<T>, ev: Event<T>, t: T)
    requires Inv(s) && Enabled(s, ev) && Step(s, ev).Ok? && Dead(s, t)
    ensures Dead(Step(s, ev).s, t) <==> !Revives(s, ev, t)
  {
    if Yields(ev) {
      BeforeYieldKeepsInv(s, ev);
      YieldKeepsDead(BeforeYield(s, ev), t);
      hide YieldStep;
    } else {
      hide YieldStep, NewPid, MarkUsed, NoDuplicates;
    }
  }

  // ---- Never stuck -----------------------------------------------------------------------

  /** The last task of the list is not waiting. */
  ghost predicate LastBusy<T>(s: Sched<T>) {
    WellFormed(s) && |s.list| >= 2 && s.recs[s.list[|s.list| - 1]].state != Waiting
  }

  lemma YieldKeepsLastBusy<T>(s: Sched<T>)
    requires Inv(s) && LastBusy(s)
    ensures YieldStep(s).Ok? && LastBusy(YieldStep(s).s)
  {
    var i := FirstWaiting(s.list, s.recs, 1);
    if i < |s.list| {
      assert i != |s.list| - 1;
      YieldKeepsList(s);
      assert s.list[i] != s.list[0];
      hide MoveToEnd, Without, FirstWaiting;
    }
  }

  /** Whoever is put last is put there running, so unless a task is created without being run,
      every step completes and leaves the last task busy. */
  lemma StepKeepsLastBusy<T>(s: Sched<T>, ev: Event<T>)
    requires Inv(s) && Enabled(s, ev) && LastBusy(s) && !ev.Create?
    ensures Step(s, ev).Ok? && Inv(Step(s, ev).s) && LastBusy(Step(s, ev).s)
  {
    if Yields(ev) {
      BeforeYieldKeepsInv(s, ev);
      assert LastBusy(BeforeYield(s, ev));
      YieldKeepsLastBusy(BeforeYield(s, ev));
      hide YieldStep, BeforeYield, Inv, LastBusy;
      StepKeepsInv(s, ev);
    } else {
      StepKeepsInv(s, ev);
      StepShape(s, ev);
      hide YieldStep, BeforeYield, Without, NoDuplicates, NewPid, MarkUsed;
    }
  }

  // ---- Runs ------------------------------------------------------------------------------

  /** The states that a sequence of events leads through, as far as it gets: nothing is said of
      what comes after a step that gets stuck. */
  ghost predicate Trace<T>(ss: seq<Sched<T>>, evs: seq<Event<T>>) {
    && |ss| == |evs| + 1 && Inv(ss[0])
    && forall k :: 0 <= k < |evs| ==> Attempts(ss[k], evs[k], ss[k + 1])
  }

  ghost predicate Attempts<T>(s: Sched<T>, ev: Event<T>, s': Sched<T>) {
    WellFormed(s) ==> Enabled(s, ev) && (Step(s, ev).Ok? ==> Step(s, ev) == Ok(s'))
  }

  ghost predicate NoCreate<T>(evs: seq<Event<T>>) {
    forall k :: 0 <= k < |evs| ==> !evs[k].Create?
  }

  /** From boot on, no sequence of forks, execs, exits, kills and yields ever gets stuck: as long as
      no further task is created by create_process, which only boot calls, every step completes. */
  lemma {:induction false} NeverStuck<T>(ss: seq<Sched<T>>, evs: seq<Event<T>>, k: nat)
    requires Trace(ss, evs) && LastBusy(ss[0]) && NoCreate(evs) && k <= |evs|
    ensures Inv(ss[k]) && LastBusy(ss[k])
    ensures k < |evs| ==> StepsTo(ss[k], evs[k], ss[k + 1])
  {
    hide Step, Inv, LastBusy;
    if k > 0 {
      NeverStuck(ss, evs, k - 1);
      assert StepsTo(ss[k - 1], evs[k - 1], ss[k - 1 + 1]);
      StepKeepsLastBusy(ss[k - 1], evs[k - 1]);
    }
    if k < |evs| {
      assert Attempts(ss[k], evs[k], ss[k + 1]);
      InvWellFormed(ss[k]);
      StepKeepsLastBusy(ss[k], evs[k]);
    }
  }

  lemma InvWellFormed<T>(s: Sched<T>)
    requires Inv(s)
    ensures WellFormed(s)
  {
  }

  lemma TraceIsRun<T>(ss: seq<Sched<T>>, evs: seq<Event<T>>)
    requires Trace(ss, evs) && LastBusy(ss[0]) && NoCreate(evs)
    ensures Run(ss, evs) && forall k :: 0 <= k < |ss| ==> WellFormed(ss[k])
  {
    hide Inv, LastBusy, StepsTo, Attempts, NoCreate, WellFormed;
    forall k | 0 <= k < |ss|
      ensures WellFormed(ss[k]) && (k < |evs| ==> StepsTo(ss[k], evs[k], ss[k + 1]))
    {
      NeverStuck(ss, evs, k);
      InvWellFormed(ss[k]);
    }
  }

  /** With a task created after boot, the next yield gets stuck on it. */
  lemma StuckAfterCreate<T>(s: Sched<T>, init: T, shell: T, kernelSpace: nat, shellSpace: nat, t: T, space: nat)
    requires Booted(s, init, shell, kernelSpace, shellSpace) && t != init && t != shell
    ensures WellFormed(s) && Enabled(s, Create(t, space)) && Step(s, Create(t, space)).Ok?
    ensures var s' := Step(s, Create(t, space)).s; WellFormed(s') && Step(s', Yield).Stuck?
  {
    BootKeepsInv(s, init, shell, kernelSpace, shellSpace);
    var s' := Step(s, Create(t, space)).s;
    StepShape(s, Create(t, space));
    assert s'.list == [init, shell, t];
    StuckIff(s', Yield);
  }

  /** The shell exits, with nobody to switch to; it goes on as a zombie, forks, and the next yield
      dispatches it again. */
  lemma ZombieDispatched<T>(s: Sched<T>, init: T, shell: T, kernelSpace: nat, shellSpace: nat, c: T, space: nat)
    requires Booted(s, init, shell, kernelSpace, shellSpace) && c != init && c != shell
    ensures WellFormed(s) && Step(s, Exit).Ok?
    ensures var s1 := Step(s, Exit).s;
      && WellFormed(s1) && Dead(s1, shell) && Enabled(s1, Fork(c, space)) && Revives(s1, Fork(c, space), shell)
      && Step(s1, Fork(c, space)).Ok?
      && var s2 := Step(s1, Fork(c, space)).s;
         WellFormed(s2) && Step(s2, Yield).Ok? && Dispatches(s2, Yield, shell)
  {
    BootKeepsInv(s, init, shell, kernelSpace, shellSpace);
    StepKeepsLastBusy(s, Exit);
    var s1 := Step(s, Exit).s;
    assert s.list[1] == shell && FirstWaiting(BeforeYield(s, Exit).list, BeforeYield(s, Exit).recs, 1) == 2;
    assert s1 == BeforeYield(s, Exit);
    StepKeepsLastBusy(s1, Fork(c, space));
    StepShape(s1, Fork(c, space));
    var s2 := Step(s1, Fork(c, space)).s;
    assert s2.list == [init, shell, c] && s2.recs[shell].state == Waiting;
    StepKeepsLastBusy(s2, Yield);
  }

  ghost predicate Run<T>(ss: seq<Sched<T>>, evs: seq<Event<T>>) {
    && |ss| == |evs| + 1 && Inv(ss[0])
    && forall k :: 0 <= k < |evs| ==> StepsTo(ss[k], evs[k], ss[k + 1])
  }

  ghost predicate StepsTo<T>(s: Sched<T>, ev: Event<T>, s': Sched<T>) {
    WellFormed(s) && Enabled(s, ev) && Step(s, ev) == Ok(s')
  }

  lemma {:induction false} RunKeepsInv<T>(ss: seq<Sched<T>>, evs: seq<Event<T>>, k: nat)
    requires Run(ss, evs) && k <= |evs|
    ensures Inv(ss[k]) && ss[k].list[0] == ss[0].list[0]
    ensures forall t :: t in ss[0].list ==> t in ss[k].list
  {
    hide Step, Without, Picks;
    if k > 0 {
      RunKeepsInv(ss, evs, k - 1);
      assert StepsTo(ss[k - 1], evs[k - 1], ss[k - 1 + 1]);
      StepKeepsInv(ss[k - 1], evs[k - 1]);
      StepShape(ss[k - 1], evs[k - 1]);
    }
  }

  lemma {:induction false} DeadStays<T>(ss: seq<Sched<T>>, evs: seq<Event<T>>, t: T, j: nat, k: nat)
    requires Run(ss, evs) && j <= k <= |evs| && Inv(ss[j]) && Dead(ss[j], t)
    requires forall i :: j <= i < k ==> !Revives(ss[i], evs[i], t)
    ensures Inv(ss[k]) && Dead(ss[k], t)
    decreases k - j
  {
    hide Step, Inv, Dead, Revives;
    if j < k {
      DeadStays(ss, evs, t, j, k - 1);
      assert StepsTo(ss[k - 1], evs[k - 1], ss[k - 1 + 1]);
      DeadStepIff(ss[k - 1], evs[k - 1], t);
      StepKeepsInv(ss[k - 1], evs[k - 1]);
    }
  }

  /** Exactly when a dead task stays dead throughout a stretch of a run. */
  lemma DeadThroughoutIff<T>(ss: seq<Sched<T>>, evs: seq<Event<T>>, t: T, j: nat, k: nat)
    requires Run(ss, evs) && j <= k <= |evs| && Dead(ss[j], t)
    ensures (forall i :: j <= i <= k ==> Dead(ss[i], t)) <==> (forall i :: j <= i < k ==> !Revives(ss[i], evs[i], t))
  {
    hide Step, Inv, Dead, Revives, StepsTo;
    RunKeepsInv(ss, evs, j);
    if forall i :: j <= i < k ==> !Revives(ss[i], evs[i], t) {
      forall i | j <= i <= k ensures Dead(ss[i], t) {
        DeadStays(ss, evs, t, j, i);
      }
    } else {
      var i :| j <= i < k && Revives(ss[i], evs[i], t);
      RevivedAt(ss, evs, t, i);
    }
  }

  lemma RevivedAt<T>(ss: seq<Sched<T>>, evs: seq<Event<T>>, t: T, i: nat)
    requires Run(ss, evs) && i < |evs| && Revives(ss[i], evs[i], t)
    ensures !Dead(ss[i + 1], t)
  {
    RunKeepsInv(ss, evs, i);
    assert StepsTo(ss[i], evs[i], ss[i + 1]);
    DeadStepIff(ss[i], evs[i], t);
    hide Step, Inv;
  }

  /** As long as it does not itself fork as a zombie, a task that is ENDED or ZOMBIE once is never
      dispatched again. */
  lemma DeadForever<T>(ss: seq<Sched<T>>, evs: seq<Event<T>>, t: T, j: nat, k: nat)
    requires Run(ss, evs) && j <= k < |evs| && WellFormed(ss[j]) && Dead(ss[j], t)
    requires forall i :: j <= i < k ==> !Revives(ss[i], evs[i], t)
    ensures WellFormed(ss[k]) && Dead(ss[k], t) && !Dispatches(ss[k], evs[k], t)
  {
    RunKeepsInv(ss, evs, j);
    DeadStays(ss, evs, t, j, k);
    assert StepsTo(ss[k], evs[k], ss[k + 1]);
    DeadNotDispatched(ss[k], evs[k], t);
    hide Step, Revives;
  }

  // ---- Bounded waiting -------------------------------------------------------------------

  ghost function Yielded<T>(evs: seq<Event<T>>, k: nat): nat
    requires k <= |evs|
  {
    if k == 0 then 0 else Yielded(evs, k - 1) + (if Yields(evs[k - 1]) then 1 else 0)
  }

  /** Kill(pid) hits `t`. */
  ghost predicate Kills<T>(s: Sched<T>, ev: Event<T>, t: T)
    requires WellFormed(s)
  {
    ev.Kill? && var i := FindPid(s.list, s.recs, ev.pid, 0); i < |s.list| && s.list[i] == t
  }

  /** A waiting task that is neither picked nor killed goes on waiting, and a yield brings it one
      place nearer to init. */
  lemma WaitingAdvances<T>(s: Sched<T>, ev: Event<T>, i: nat)
    requires Inv(s) && Enabled(s, ev) && Step(s, ev).Ok?
    requires 1 <= i < |s.list| && s.recs[s.list[i]].state == Waiting
    requires !Picks(s, ev, s.list[i]) && !Kills(s, ev, s.list[i])
    ensures var s' := Step(s, ev).s; var i' := if Yields(ev) then i - 1 else i;
            1 <= i' < |s'.list| && s'.list[i'] == s.list[i] && s'.recs[s.list[i]].state == Waiting
  {
    hide NoDuplicates;
    if Yields(ev) {
      var b := BeforeYield(s, ev);
      assert b.recs[b.list[i]].state == Waiting;
      var j := FirstWaiting(b.list, b.recs, 1);
      assert j < i;
      assert MoveToEnd(b.list, j)[i - 1] == b.list[i];
    }
  }

  lemma {:induction false} StillWaiting<T>(ss: seq<Sched<T>>, evs: seq<Event<T>>, i: nat, k: nat)
    requires Run(ss, evs) && k <= |evs|
    requires 1 <= i < |ss[0].list| && ss[0].recs[ss[0].list[i]].state == Waiting
    requires forall j :: 0 <= j < k ==>
      WellFormed(ss[j]) && !Picks(ss[j], evs[j], ss[0].list[i]) && !Kills(ss[j], evs[j], ss[0].list[i])
    ensures Inv(ss[k]) && Yielded(evs, k) < i && i - Yielded(evs, k) < |ss[k].list|
    ensures ss[k].list[i - Yielded(evs, k)] == ss[0].list[i] && ss[k].recs[ss[0].list[i]].state == Waiting
  {
    hide Step, Picks, Kills;
    if k > 0 {
      StillWaiting(ss, evs, i, k - 1);
      assert StepsTo(ss[k - 1], evs[k - 1], ss[k - 1 + 1]);
      WaitingAdvances(ss[k - 1], evs[k - 1], i - Yielded(evs, k - 1));
      StepKeepsInv(ss[k - 1], evs[k - 1]);
    }
  }

  /** Bounded waiting, on runs of completed steps: a waiting task with `i - 1` tasks between init and
      it, that nobody kills, is picked by one of the first `i` yields. */
  lemma BoundedWaitingInRun<T>(ss: seq<Sched<T>>, evs: seq<Event<T>>, i: nat)
    requires Run(ss, evs) && forall j :: 0 <= j < |evs| ==> WellFormed(ss[j])
    requires 1 <= i < |ss[0].list| && ss[0].recs[ss[0].list[i]].state == Waiting
    requires Yielded(evs, |evs|) >= i
    requires forall j :: 0 <= j < |evs| ==> !Kills(ss[j], evs[j], ss[0].list[i])
    ensures exists j :: 0 <= j < |evs| && Yielded(evs, j) < i && Picks(ss[j], evs[j], ss[0].list[i])
  {
    var x := ss[0].list[i];
    if j :| 0 <= j < |evs| && Picks(ss[j], evs[j], x) {
      var first := FirstPick(ss, evs, x, j);
      StillWaiting(ss, evs, i, first);
    } else {
      StillWaiting(ss, evs, i, |evs|);
    }
  }

  /** Bounded waiting, from boot: no step is assumed to complete, only that no further task comes from
      create_process. Whatever forks, execs, exits and kills of others happen, a waiting task with
      `i - 1` tasks between init and it is picked by one of the first `i` yields. */
  lemma BoundedWaiting<T>(ss: seq<Sched<T>>, evs: seq<Event<T>>, i: nat)
    requires Trace(ss, evs) && LastBusy(ss[0]) && NoCreate(evs)
    requires 1 <= i < |ss[0].list| && ss[0].recs[ss[0].list[i]].state == Waiting
    requires Yielded(evs, |evs|) >= i
    requires forall j :: 0 <= j < |evs| && WellFormed(ss[j]) ==> !Kills(ss[j], evs[j], ss[0].list[i])
    ensures exists j ::
      0 <= j < |evs| && Yielded(evs, j) < i && WellFormed(ss[j]) && Picks(ss[j], evs[j], ss[0].list[i])
  {
    TraceIsRun(ss, evs);
    hide Trace, Run, Picks, Kills, LastBusy, NoCreate;
    BoundedWaitingInRun(ss, evs, i);
  }

  lemma {:induction false} FirstPick<T>(ss: seq<Sched<T>>, evs: seq<Event<T>>, x: T, j: nat) returns (first: nat)
    requires j < |evs| < |ss| && forall k :: 0 <= k < |evs| ==> WellFormed(ss[k])
    requires Picks(ss[j], evs[j], x)
    ensures first <= j && Picks(ss[first], evs[first], x) && forall k :: 0 <= k < first ==> !Picks(ss[k], evs[k], x)
  {
    if k :| 0 <= k < j && Picks(ss[k], evs[k], x) {
      first := FirstPick(ss, evs, x, k);
    } else {
      first := j;
    }
  }

  // ---- Process ids -----------------------------------------------------------------------

  /** The ids handed out are exactly 1, 2, ..., up to 99. */
  ghost predicate UsedPrefix(used: seq<bool>, n: nat) {
    |used| == 100 && forall id :: 1 <= id < 100 ==> (used[id] <==> id <= n)
  }

  /** With at most 99 tasks: pids are 1 to the number of tasks, each once, and every parent has a
      smaller one. */
  ghost predicate PidInv<T>(s: Sched<T>) {
    && WellFormed(s) && UsedPrefix(s.used, |s.list|)
    && (forall t :: t in s.recs ==> 1 <= s.recs[t].pid <= |s.list| && s.recs[t].ppid < s.recs[t].pid)
    && (forall t, u :: t in s.recs && u in s.recs && s.recs[t].pid == s.recs[u].pid ==> t == u)
    && (forall t :: t in s.recs ==> HasParent(s, t))
  }

  ghost predicate HasParent<T>(s: Sched<T>, t: T)
    requires t in s.recs
  {
    s.recs[t].ppid == 0 || exists u :: u in s.recs && s.recs[u].pid == s.recs[t].ppid
  }

  lemma {:induction false} FirstUnusedAfterPrefix(used: seq<bool>, n: nat, id: nat)
    requires UsedPrefix(used, n) && 1 <= id <= 100 && id <= n + 1
    ensures FirstUnused(used, id) == if n < 99 then n + 1 else 0xFFFF
    decreases 100 - id
  {
    if id < 100 && used[id] { FirstUnusedAfterPrefix(used, n, id + 1); }
  }

  ghost predicate SameIds<T>(s: Sched<T>, s': Sched<T>, t: T) {
    t in s.recs && t in s'.recs && s'.recs[t].pid == s.recs[t].pid && s'.recs[t].ppid == s.recs[t].ppid
  }

  /** The same tasks with the same pids and parents. */
  ghost predicate SameFamily<T>(s: Sched<T>, s': Sched<T>) {
    && |s'.list| == |s.list| && s'.used == s.used && s'.recs.Keys == s.recs.Keys
    && (forall t :: t in s.recs ==> SameIds(s, s', t))
  }

  /** One more task, with the next unused pid. */
  ghost predicate OneMore<T>(s: Sched<T>, s': Sched<T>, t: T, ppid: nat)
    requires |s.used| == 100
  {
    && |s'.list| == |s.list| + 1 && s'.used == MarkUsed(s.used, NewPid(s.used))
    && t !in s.recs && s'.recs.Keys == s.recs.Keys + {t}
    && (forall u :: u in s.recs ==> SameIds(s, s', u))
    && s'.recs[t].pid == NewPid(s.used) && s'.recs[t].ppid == ppid
  }

  lemma YieldSameFamily<T>(s: Sched<T>)
    requires WellFormed(s) && YieldStep(s).Ok?
    ensures SameFamily(s, YieldStep(s).s)
  {
    hide NoDuplicates, FirstWaiting;
  }

  lemma BeforeYieldSameFamily<T>(s: Sched<T>, ev: Event<T>)
    requires WellFormed(s)
    ensures SameFamily(s, BeforeYield(s, ev))
  {
    hide NoDuplicates;
  }

  /** A yield changes no pid and no parent; the other steps add one task, a child of init, of the
      running task, or of the running task's parent. */
  lemma StepFamily<T>(s: Sched<T>, ev: Event<T>)
    requires WellFormed(s) && Enabled(s, ev) && Step(s, ev).Ok?
    ensures match ev
            case Create(t, _) => OneMore(s, Step(s, ev).s, t, s.recs[s.list[0]].pid)
            case Fork(t, _) => OneMore(s, Step(s, ev).s, t, s.recs[s.running].pid)
            case Exec(t, _) => OneMore(s, Step(s, ev).s, t, s.recs[s.running].ppid)
            case _ => SameFamily(s, Step(s, ev).s)
  {
    if Yields(ev) {
      BeforeYieldSameFamily(s, ev);
      YieldSameFamily(BeforeYield(s, ev));
      hide YieldStep, BeforeYield, WellFormed;
    } else {
      hide YieldStep, BeforeYield, NoDuplicates, FirstUnused;
    }
  }

  lemma SameFamilyKeepsPids<T>(s: Sched<T>, s': Sched<T>)
    requires PidInv(s) && WellFormed(s') && SameFamily(s, s')
    ensures PidInv(s')
  {
    hide NoDuplicates, UsedPrefix;
    forall t | t in s'.recs
      ensures HasParent(s', t)
    {
      assert HasParent(s, t) && SameIds(s, s', t);
      if s.recs[t].ppid != 0 {
        var u :| u in s.recs && s.recs[u].pid == s.recs[t].ppid;
        assert SameIds(s, s', u);
      }
    }
    forall t, u | t in s'.recs && u in s'.recs && s'.recs[t].pid == s'.recs[u].pid
      ensures t == u
    {
      assert SameIds(s, s', t) && SameIds(s, s', u);
    }
  }

  lemma NextPid(used: seq<bool>, n: nat)
    requires UsedPrefix(used, n)
    ensures NewPid(used) == if n < 99 then n + 1 else 0xFFFF
    ensures UsedPrefix(MarkUsed(used, NewPid(used)), n + 1)
  {
    FirstUnusedAfterPrefix(used, n, 1);
  }

  lemma OneMoreHasParents<T>(s: Sched<T>, s': Sched<T>, t: T, ppid: nat, parent: T, u: T)
    requires |s.used| == 100 && OneMore(s, s', t, ppid) && u in s'.recs
    requires parent in s.recs && (ppid == s.recs[parent].pid || ppid == s.recs[parent].ppid)
    requires forall v :: v in s.recs ==> HasParent(s, v)
    ensures HasParent(s', u)
  {
    hide NewPid, MarkUsed;
    var v := if u == t then parent else u;
    assert HasParent(s, v) && SameIds(s, s', v) && SameIds(s, s', parent);
    if s.recs[v].ppid != 0 {
      var w :| w in s.recs && s.recs[w].pid == s.recs[v].ppid;
      assert SameIds(s, s', w);
    }
  }

  lemma OneMoreKeepsPids<T>(s: Sched<T>, s': Sched<T>, t: T, ppid: nat, parent: T)
    requires PidInv(s) && WellFormed(s') && OneMore(s, s', t, ppid) && |s.list| < 99
    requires parent in s.recs && (ppid == s.recs[parent].pid || ppid == s.recs[parent].ppid)
    ensures PidInv(s')
  {
    NextPid(s.used, |s.list|);
    forall u | u in s'.recs
      ensures HasParent(s', u)
    {
      OneMoreHasParents(s, s', t, ppid, parent, u);
    }
    hide UsedPrefix, NewPid, MarkUsed, HasParent, WellFormed;
    forall u | u in s'.recs
      ensures 1 <= s'.recs[u].pid <= |s'.list| && s'.recs[u].ppid < s'.recs[u].pid
    {
      assert u != t ==> SameIds(s, s', u);
    }
    forall u, v | u in s'.recs && v in s'.recs && s'.recs[u].pid == s'.recs[v].pid
      ensures u == v
    {
      assert u != t ==> SameIds(s, s', u);
      assert v != t ==> SameIds(s, s', v);
    }
  }

  lemma StepKeepsPidInv<T>(s: Sched<T>, ev: Event<T>)
    requires PidInv(s) && Enabled(s, ev) && Step(s, ev).Ok?
    requires Yields(ev) || |s.list| < 99
    ensures PidInv(Step(s, ev).s)
  {
    StepFamily(s, ev);
    StepShape(s, ev);
    match ev
    case Create(t, _) => OneMoreKeepsPids(s, Step(s, ev).s, t, s.recs[s.list[0]].pid, s.list[0]);
    case Fork(t, _) => OneMoreKeepsPids(s, Step(s, ev).s, t, s.recs[s.running].pid, s.running);
    case Exec(t, _) => OneMoreKeepsPids(s, Step(s, ev).s, t, s.recs[s.running].ppid, s.running);
    case _ => SameFamilyKeepsPids(s, Step(s, ev).s);
  }

  /** A new task gets the next pid, as long as there are at most 99; after that none is left. */
  lemma KthPid<T>(s: Sched<T>, s': Sched<T>, t: T, ppid: nat)
    requires UsedPrefix(s.used, |s.list|) && OneMore(s, s', t, ppid)
    ensures s'.recs[t].pid == NthPid(|s'.list|) && UsedPrefix(s'.used, |s'.list|)
  {
    NextPid(s.used, |s.list|);
  }

  /** The pid of the n-th task ever created. */
  function NthPid(n: nat): nat { if n <= 99 then n else 0xFFFF }

  predicate Creates<T>(ev: Event<T>) {
    ev.Create? || ev.Fork? || ev.Exec?
  }

  function Created<T>(ev: Event<T>): T
    requires Creates(ev)
  {
    match ev
    case Create(t, _) => t
    case Fork(t, _) => t
    case Exec(t, _) => t
  }

  function Creations<T>(evs: seq<Event<T>>, k: nat): nat
    requires k <= |evs|
  {
    if k == 0 then 0 else Creations(evs, k - 1) + if Creates(evs[k - 1]) then 1 else 0
  }

  lemma StepPids<T>(s: Sched<T>, ev: Event<T>)
    requires WellFormed(s) && Enabled(s, ev) && Step(s, ev).Ok? && UsedPrefix(s.used, |s.list|)
    ensures var s' := Step(s, ev).s;
      && UsedPrefix(s'.used, |s'.list|) && |s'.list| == |s.list| + (if Creates(ev) then 1 else 0)
      && (Creates(ev) ==> Created(ev) in s'.recs && s'.recs[Created(ev)].pid == NthPid(|s'.list|))
      && forall t :: t in s.recs ==> SameIds(s, s', t)
  {
    hide Step, WellFormed, Enabled, UsedPrefix, NthPid, SameIds;
    StepFamily(s, ev);
    var s' := Step(s, ev).s;
    match ev
    case Create(t, _) => KthPid(s, s', t, s'.recs[t].ppid);
    case Fork(t, _) => KthPid(s, s', t, s'.recs[t].ppid);
    case Exec(t, _) => KthPid(s, s', t, s'.recs[t].ppid);
    case _ =>
  }

  lemma {:induction false} UsedInRun<T>(ss: seq<Sched<T>>, evs: seq<Event<T>>, k: nat)
    requires Run(ss, evs) && UsedPrefix(ss[0].used, |ss[0].list|) && k <= |evs|
    ensures UsedPrefix(ss[k].used, |ss[k].list|) && |ss[k].list| == |ss[0].list| + Creations(evs, k)
  {
    hide Step, WellFormed, UsedPrefix, Inv, Enabled, NthPid, SameIds;
    if k > 0 {
      UsedInRun(ss, evs, k - 1);
      assert StepsTo(ss[k - 1], evs[k - 1], ss[k - 1 + 1]);
      StepPids(ss[k - 1], evs[k - 1]);
    }
  }

  /** In every run, the n-th task created has pid n from then on, for n up to 99, and 65535 beyond. */
  lemma {:induction false} CreationPids<T>(ss: seq<Sched<T>>, evs: seq<Event<T>>, j: nat, k: nat)
    requires Run(ss, evs) && UsedPrefix(ss[0].used, |ss[0].list|) && j < k <= |evs| && Creates(evs[j])
    ensures Created(evs[j]) in ss[k].recs
    ensures ss[k].recs[Created(evs[j])].pid == NthPid(|ss[0].list| + Creations(evs, j) + 1)
    decreases k
  {
    hide Step, WellFormed, UsedPrefix, Inv, Enabled, NthPid, SameIds;
    UsedInRun(ss, evs, k - 1);
    assert StepsTo(ss[k - 1], evs[k - 1], ss[k - 1 + 1]);
    StepPids(ss[k - 1], evs[k - 1]);
    if j < k - 1 {
      CreationPids(ss, evs, j, k - 1);
      SameIdsKeep(ss[k - 1], ss[k], Created(evs[j]));
    }
  }

  lemma SameIdsKeep<T>(s: Sched<T>, s': Sched<T>, t: T)
    requires SameIds(s, s', t)
    ensures t in s.recs && t in s'.recs && s'.recs[t].pid == s.recs[t].pid
  {
  }

  lemma PidInvWellFormed<T>(s: Sched<T>)
    requires PidInv(s)
    ensures WellFormed(s)
  {
  }

  lemma StepCount<T>(s: Sched<T>, ev: Event<T>)
    requires WellFormed(s) && Enabled(s, ev) && Step(s, ev).Ok?
    ensures |Step(s, ev).s.list| == |s.list| + if Yields(ev) then 0 else 1
  {
    hide Step, WellFormed, Enabled, MarkUsed, NewPid, SameIds;
    StepFamily(s, ev);
  }

  /** In every run that creates no more than 99 tasks, init included. */
  lemma {:induction false} PidsDistinct<T>(ss: seq<Sched<T>>, evs: seq<Event<T>>, k: nat)
    requires Run(ss, evs) && PidInv(ss[0]) && k <= |evs| && forall j :: 0 <= j <= k ==> |ss[j].list| <= 99
    ensures PidInv(ss[k])
  {
    hide PidInv, WellFormed, Step;
    if k > 0 {
      PidsDistinct(ss, evs, k - 1);
      PidInvWellFormed(ss[k - 1]);
      assert StepsTo(ss[k - 1], evs[k - 1], ss[k - 1 + 1]);
      StepCount(ss[k - 1], evs[k - 1]);
      StepKeepsPidInv(ss[k - 1], evs[k - 1]);
    }
  }

  /** The parent chain of a task: it climbs through ever smaller pids and ends at a task whose
      parent is 0. */
  ghost function Ancestry<T>(s: Sched<T>, t: T): (chain: seq<T>)
    requires PidInv(s) && t in s.recs
    ensures chain != [] && chain[0] == t && forall i :: 0 <= i < |chain| ==> chain[i] in s.recs
    ensures forall i :: 0 <= i < |chain| - 1 ==>
      s.recs[chain[i + 1]].pid == s.recs[chain[i]].ppid < s.recs[chain[i]].pid
    ensures s.recs[chain[|chain| - 1]].ppid == 0
    decreases s.recs[t].pid
  {
    hide UsedPrefix, NoDuplicates;
    if s.recs[t].ppid == 0 then [t]
    else
      assert HasParent(s, t);
      var u :| u in s.recs && s.recs[u].pid == s.recs[t].ppid;
      [t] + Ancestry(s, u)
  }

  /** The state after boot: init waiting, the shell, its child, running. */
  ghost predicate Booted<T>(s: Sched<T>, init: T, shell: T, kernelSpace: nat, shellSpace: nat) {
    && init != shell && UsedPrefix(s.used, 2)
    && s.list == [init, shell] && s.running == shell && s.cr3 == shellSpace
    && s.recs == map[init := Rec(1, 0, Waiting, kernelSpace), shell := Rec(2, 1, Running, shellSpace)]
  }

  lemma BootKeepsInv<T>(s: Sched<T>, init: T, shell: T, kernelSpace: nat, shellSpace: nat)
    requires Booted(s, init, shell, kernelSpace, shellSpace)
    ensures Inv(s) && PidInv(s) && LastBusy(s)
  {
    assert init in s.recs && shell in s.recs && s.list[0] == init && s.list[1] == shell;
    assert HasParent(s, init) && HasParent(s, shell);
  }
}
