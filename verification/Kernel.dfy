/** Tasks and memory together: the scheduler's steps and the address-space steps that go with them,
    in one run. Every living task keeps an address space of its own, and reads in it what it would
    read had each fork copied every page. */
module Kernel {
  import opened Utils
  import opened Paging
  import opened Phymap
  import Sched
  import Cow
  import Launch

  type State<T> = Sched.Sched<T>

  /** What can happen: a fork or an exec of the running task, an exit, kill or yield, a user write of
      the running task's, or the kernel storing into its own structures meanwhile. */
  datatype Act<T> =
    | Fork(child: T, space: nat)
    | Exec(task: T, space: nat, image: Cow.Image, at: Addresses)
    | Switch(event: Sched.Event<T>, at: Addresses)
    | Write(page: seq<nat>, off: nat, byte: bv8)
    | Store(at: Addresses)

  /** What it means for the tasks: nothing, for the last two. */
  ghost predicate TaskStep<T>(s: State<T>, s': State<T>, act: Act<T>) {
    match act
    case Fork(c, space) => Sched.StepsTo(s, Sched.Fork(c, space), s')
    case Exec(t, space, _, _) => Sched.StepsTo(s, Sched.Exec(t, space), s')
    case Switch(ev, _) => Sched.Yields(ev) && Sched.StepsTo(s, ev, s')
    case _ => s' == s
  }

  /** What it means for memory, under the root in CR3. */
  function MemoryEvent(cr3: nat, act: Act): Cow.Event {
    match act
    case Fork(_, space) => Cow.Fork(cr3, space)
    case Exec(_, space, image, at) => Cow.Exec(cr3, space, image, at)
    case Switch(_, at) => Cow.Kernel(cr3, at)
    case Write(page, off, byte) => Cow.Write(cr3, page, off, byte)
    case Store(at) => Cow.Kernel(cr3, at)
  }

  ghost predicate Step<T>(s: State<T>, mem: Snap, s': State<T>, mem': Snap, procs: set<nat>, pages: Cow.Pages,
                          act: Act<T>) {
    TaskStep(s, s', act) && Cow.Step(mem, mem', procs, pages, MemoryEvent(s.cr3, act))
  }

  /** The tasks that have left their address space by exec. */
  ghost function Gone<T>(gone: set<T>, s: State<T>, act: Act<T>): set<T> {
    if act.Exec? then gone + {s.running} else gone
  }

  /** Task `t` has an address space of its own: it is not init, and has not left by exec. */
  ghost predicate Housed<T>(s: State<T>, gone: set<T>, t: T) {
    t in s.recs && s.list != [] && t != s.list[0] && t !in gone
  }

  /** Every housed task's root is among the processes', no two share one, and those gone have ended. */
  ghost predicate OwnSpaces<T>(s: State<T>, procs: set<nat>, gone: set<T>) {
    && Sched.Inv(s)
    && (forall t :: t in gone ==> t in s.recs && s.recs[t].state == Sched.Ended)
    && s.running !in gone && s.list[0] !in gone
    && (forall t :: t in s.recs && Housed(s, gone, t) ==> s.recs[t].cr3 in procs)
    && (forall t, u :: t in s.recs && u in s.recs && Housed(s, gone, t) && Housed(s, gone, u) && t != u ==>
          s.recs[t].cr3 != s.recs[u].cr3)
  }

  /** A root that is new to memory is no process's. */
  lemma NewRoot(mem: Snap, procs: set<nat>, pages: Cow.Pages, n: nat)
    requires Cow.Inv(mem, procs, pages) && n !in mem.own
    ensures n !in procs
  {
  }

  lemma ForkKeepsSpaces<T>(s: State<T>, s': State<T>, procs: set<nat>, gone: set<T>, c: T, space: nat)
    requires OwnSpaces(s, procs, gone) && space !in procs && Sched.StepsTo(s, Sched.Fork(c, space), s')
    ensures OwnSpaces(s', procs + {space}, gone)
  {
    hide NoDuplicates, Sched.NewPid, Sched.MarkUsed, Sched.Without, Sched.YieldStep, Sched.BeforeYield;
    Sched.StepKeepsInv(s, Sched.Fork(c, space));
    assert forall t :: t in s'.recs ==> t == c || (t in s.recs && s'.recs[t].cr3 == s.recs[t].cr3);
    assert s'.recs[c].cr3 == space && s'.list[0] == s.list[0];
    assert forall t :: t in s'.recs && Housed(s', gone, t) && t != c ==> Housed(s, gone, t);
  }

  lemma ExecKeepsSpaces<T>(s: State<T>, s': State<T>, procs: set<nat>, gone: set<T>, t: T, space: nat)
    requires OwnSpaces(s, procs, gone) && space !in procs && Sched.StepsTo(s, Sched.Exec(t, space), s')
    ensures OwnSpaces(s', procs - {s.cr3} + {space}, gone + {s.running})
  {
    hide NoDuplicates, Sched.NewPid, Sched.MarkUsed, Sched.Without, Sched.YieldStep, Sched.BeforeYield;
    Sched.StepKeepsInv(s, Sched.Exec(t, space));
    assert forall u :: u in s'.recs ==> u == t || (u in s.recs && s'.recs[u].cr3 == s.recs[u].cr3);
    assert s'.recs[t].cr3 == space && s'.list[0] == s.list[0] && s'.recs[s.running].state == Sched.Ended;
    assert Housed(s, gone, s.running);
    assert forall u :: u in s'.recs && Housed(s', gone + {s.running}, u) && u != t ==> Housed(s, gone, u);
  }

  lemma YieldRecords<T>(s: State<T>)
    requires Sched.WellFormed(s) && Sched.YieldStep(s).Ok?
    ensures var s' := Sched.YieldStep(s).s;
      && s'.recs.Keys == s.recs.Keys
      && (forall t :: t in s.recs ==> s'.recs[t].cr3 == s.recs[t].cr3)
      && (forall t :: t in s.recs && s.recs[t].state == Sched.Ended ==> s'.recs[t].state == Sched.Ended)
      && (s'.running == s.running || (s'.running in s.recs && s.recs[s'.running].state == Sched.Waiting))
  {
    hide NoDuplicates, Sched.MoveToEnd;
  }

  lemma BeforeRecords<T>(s: State<T>, ev: Sched.Event<T>)
    requires Sched.WellFormed(s)
    ensures var b := Sched.BeforeYield(s, ev);
      && b.recs.Keys == s.recs.Keys && b.running == s.running
      && (forall t :: t in s.recs ==> b.recs[t].cr3 == s.recs[t].cr3)
      && (forall t :: t in s.recs && s.recs[t].state == Sched.Ended && t != s.running ==>
            b.recs[t].state == Sched.Ended)
      && (forall t :: t in s.recs && b.recs[t].state == Sched.Waiting ==> s.recs[t].state == Sched.Waiting)
  {
    hide NoDuplicates;
  }

  /** What an exit, a kill or a yield does to the records. */
  lemma SwitchRecords<T>(s: State<T>, ev: Sched.Event<T>)
    requires Sched.WellFormed(s) && Sched.Enabled(s, ev) && Sched.Yields(ev) && Sched.Step(s, ev).Ok?
    ensures var s' := Sched.Step(s, ev).s;
      && s'.recs.Keys == s.recs.Keys && s'.list != [] && s'.list[0] == s.list[0]
      && (forall t :: t in s.recs ==> s'.recs[t].cr3 == s.recs[t].cr3)
      && (forall t :: t in s.recs && s.recs[t].state == Sched.Ended && t != s.running ==>
            s'.recs[t].state == Sched.Ended)
      && (s'.running == s.running || (s'.running in s.recs && s.recs[s'.running].state == Sched.Waiting))
  {
    hide NoDuplicates, Sched.Without, Sched.Picks, Sched.YieldStep, Sched.BeforeYield;
    Sched.StepShape(s, ev);
    BeforeRecords(s, ev);
    YieldRecords(Sched.BeforeYield(s, ev));
  }

  lemma SwitchKeepsSpaces<T>(s: State<T>, s': State<T>, procs: set<nat>, gone: set<T>, ev: Sched.Event<T>)
    requires OwnSpaces(s, procs, gone) && Sched.Yields(ev) && Sched.StepsTo(s, ev, s')
    ensures OwnSpaces(s', procs, gone)
  {
    Sched.StepKeepsInv(s, ev);
    SwitchRecords(s, ev);
    hide Sched.Step, Sched.Inv, Sched.BeforeYield, Sched.YieldStep;
    assert forall t :: t in s'.recs && Housed(s', gone, t) ==> Housed(s, gone, t);
  }

  /** One step of the whole keeps tasks and memory in step. */
  lemma StepKeepsSpaces<T>(s: State<T>, mem: Snap, s': State<T>, mem': Snap, procs: set<nat>, pages: Cow.Pages,
                           gone: set<T>, act: Act<T>)
    requires OwnSpaces(s, procs, gone) && Cow.Inv(mem, procs, pages) && Step(s, mem, s', mem', procs, pages, act)
    ensures OwnSpaces(s', Cow.Procs(procs, MemoryEvent(s.cr3, act)), Gone(gone, s, act))
  {
    hide OwnSpaces, Cow.Inv, Sched.StepsTo;
    match act
    case Fork(c, space) =>
      ForkRoot(mem, mem', s.cr3, space);
      NewRoot(mem, procs, pages, space);
      ForkKeepsSpaces(s, s', procs, gone, c, space);
    case Exec(t, space, image, at) =>
      NewRoot(mem, procs, pages, space);
      ExecKeepsSpaces(s, s', procs, gone, t, space);
    case Switch(ev, at) =>
      SwitchKeepsSpaces(s, s', procs, gone, ev);
    case _ =>
  }

  lemma ForkRoot(mem: Snap, mem': Snap, p: nat, c: nat)
    requires Cow.ForkSnap(mem, mem', p, c)
    ensures c !in mem.own
  {
  }

  // ---- Runs --------------------------------------------------------------------------------

  /** A run: the tasks, memory, and what happens in between. */
  ghost predicate Run<T>(ss: seq<State<T>>, mems: seq<Snap>, procs: set<nat>, pages: Cow.Pages, acts: seq<Act<T>>) {
    && |ss| == |mems| == |acts| + 1
    && forall k :: 0 <= k < |acts| ==>
         Step(ss[k], mems[k], ss[k + 1], mems[k + 1], Cow.ProcsAt(procs, Events(ss, acts), k), pages, acts[k])
  }

  ghost function Events<T>(ss: seq<State<T>>, acts: seq<Act<T>>): (evs: seq<Cow.Event>)
    requires |ss| == |acts| + 1
    ensures |evs| == |acts| && forall k :: 0 <= k < |acts| ==> evs[k] == MemoryEvent(ss[k].cr3, acts[k])
  {
    seq(|acts|, k requires 0 <= k < |acts| => MemoryEvent(ss[k].cr3, acts[k]))
  }

  ghost function GoneAt<T>(gone: set<T>, ss: seq<State<T>>, acts: seq<Act<T>>, k: nat): set<T>
    requires k <= |acts| < |ss|
  {
    if k == 0 then gone else Gone(GoneAt(gone, ss, acts, k - 1), ss[k - 1], acts[k - 1])
  }

  /** Each fault, and each of the kernel's own stores, is safe. */
  ghost predicate AllSafe<T>(ss: seq<State<T>>, mems: seq<Snap>, procs: set<nat>, pages: Cow.Pages, acts: seq<Act<T>>)
    requires |ss| == |mems| == |acts| + 1
  {
    forall k :: 0 <= k < |acts| ==>
      Cow.Safe(mems[k], Cow.ProcsAt(procs, Events(ss, acts), k), pages, Events(ss, acts)[k])
  }

  lemma MemoryRun<T>(ss: seq<State<T>>, mems: seq<Snap>, procs: set<nat>, pages: Cow.Pages, acts: seq<Act<T>>)
    requires Run(ss, mems, procs, pages, acts)
    ensures Cow.Run(mems, procs, pages, Events(ss, acts))
  {
    hide Cow.Step, TaskStep;
    forall k | 0 <= k < |acts|
      ensures Cow.Step(mems[k], mems[k + 1], Cow.ProcsAt(procs, Events(ss, acts), k), pages, Events(ss, acts)[k])
    {
      assert Step(ss[k], mems[k], ss[k + 1], mems[k + 1], Cow.ProcsAt(procs, Events(ss, acts), k), pages, acts[k]);
    }
  }

  lemma {:induction false} RunKeepsSpaces<T>(ss: seq<State<T>>, mems: seq<Snap>, procs: set<nat>, pages: Cow.Pages,
                                             gone: set<T>, acts: seq<Act<T>>, m: Cow.Spaces, k: nat)
    requires Run(ss, mems, procs, pages, acts) && AllSafe(ss, mems, procs, pages, acts) && k <= |acts|
    requires OwnSpaces(ss[0], procs, gone) && Cow.Inv(mems[0], procs, pages) && Cow.Refines(mems[0], procs, pages, m)
    ensures OwnSpaces(ss[k], Cow.ProcsAt(procs, Events(ss, acts), k), GoneAt(gone, ss, acts, k))
    ensures Cow.Inv(mems[k], Cow.ProcsAt(procs, Events(ss, acts), k), pages)
    ensures Cow.Refines(mems[k], Cow.ProcsAt(procs, Events(ss, acts), k), pages, Cow.EagerAt(m, Events(ss, acts), k))
  {
    hide OwnSpaces, Cow.Inv, Cow.Refines, Cow.Safe, Step, Cow.EagerAt, Gone, Cow.Run;
    MemoryRun(ss, mems, procs, pages, acts);
    Cow.CowRefinesEagerCopy(mems, procs, pages, Events(ss, acts), m, k);
    if k > 0 {
      RunKeepsSpaces(ss, mems, procs, pages, gone, acts, m, k - 1);
      var ps := Cow.ProcsAt(procs, Events(ss, acts), k - 1);
      assert Step(ss[k - 1], mems[k - 1], ss[k - 1 + 1], mems[k - 1 + 1], ps, pages, acts[k - 1]);
      StepKeepsSpaces(ss[k - 1], mems[k - 1], ss[k], mems[k], ps, pages, GoneAt(gone, ss, acts, k - 1), acts[k - 1]);
    }
  }

  /** A task that is neither init nor dead. */
  ghost predicate Living<T>(s: State<T>, t: T) {
    s.list != [] && t != s.list[0] && t in s.recs && !Sched.Dead(s, t)
  }

  /** In every run from a sound start: CR3 is the running task's root; the living tasks have roots of
      their own, no two the same; and each reads on every user page exactly what it would read had
      each fork copied every page at once. */
  lemma TasksReadTheirOwn<T>(ss: seq<State<T>>, mems: seq<Snap>, procs: set<nat>, pages: Cow.Pages, gone: set<T>,
                             acts: seq<Act<T>>, m: Cow.Spaces, k: nat, t: T, u: T, x: seq<nat>)
    requires Run(ss, mems, procs, pages, acts) && AllSafe(ss, mems, procs, pages, acts) && k <= |acts|
    requires OwnSpaces(ss[0], procs, gone) && Cow.Inv(mems[0], procs, pages) && Cow.Refines(mems[0], procs, pages, m)
    requires Living(ss[k], t) && x in pages
    ensures ss[k].running in ss[k].recs && ss[k].cr3 == ss[k].recs[ss[k].running].cr3
    ensures ss[k].cr3 in Cow.ProcsAt(procs, Events(ss, acts), k)
    ensures ss[k].recs[t].cr3 in Cow.ProcsAt(procs, Events(ss, acts), k)
    ensures Living(ss[k], u) && u != t ==> ss[k].recs[u].cr3 != ss[k].recs[t].cr3
    ensures Cow.SamePage(mems[k], Cow.EagerAt(m, Events(ss, acts), k), ss[k].recs[t].cr3, x)
  {
    RunKeepsSpaces(ss, mems, procs, pages, gone, acts, m, k);
    hide Run, AllSafe, Cow.Inv, Cow.SamePage, Cow.EagerAt, Cow.ProcsAt;
    assert Housed(ss[k], GoneAt(gone, ss, acts, k), ss[k].running);
    assert Housed(ss[k], GoneAt(gone, ss, acts, k), t);
    assert Living(ss[k], u) ==> Housed(ss[k], GoneAt(gone, ss, acts, k), u);
  }

  /** Boot is such a start: the shell, loaded into a clone of the kernel's space that shows nothing on
      the user pages it does not load. */
  lemma BootIsSound<T>(s: State<T>, init: T, shell: T, kernelSpace: nat, shellSpace: nat, before: Snap, mem: Snap,
                       image: Cow.Image, at: Addresses, pages: Cow.Pages)
    requires Sched.Booted(s, init, shell, kernelSpace, shellSpace)
    requires Cow.ExecSnap(before, mem, kernelSpace, shellSpace, image, at)
    requires forall x :: x in pages ==> x in image || !At(before, kernelSpace, x).Present()
    ensures OwnSpaces(s, {shellSpace}, {}) && Cow.Inv(mem, {shellSpace}, pages)
    ensures Cow.Refines(mem, {shellSpace}, pages, Launch.Contents(mem, {shellSpace}, pages))
  {
    Sched.BootKeepsInv(s, init, shell, kernelSpace, shellSpace);
    Launch.LoadedProcessIsSound(before, mem, kernelSpace, shellSpace, image, at, pages);
    Launch.RefinesOwnContents(mem, {shellSpace}, pages);
    hide Cow.ExecSnap, Cow.Inv, Cow.Refines, Sched.Inv, Sched.PidInv;
  }
}
