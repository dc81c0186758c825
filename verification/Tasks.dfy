/** sys/task.c itself: the linked list of tasks and the functions that walk and relink it, each
    proved to take the step of module Sched. */
module Tasks {
  import opened Utils
  import opened Sched

  class Task {
    var next: Task?
    var pid: nat
    var ppid: nat
    var state: TaskState
    var taskCr3: nat

    /** A structure in a fresh, zeroed frame: state 0 is TASK_WAITING. */
    constructor (pid: nat, ppid: nat, taskCr3: nat)
      ensures next == null && this.pid == pid && this.ppid == ppid && this.taskCr3 == taskCr3 && state == Waiting
    {
      this.next, this.pid, this.ppid, this.taskCr3, this.state := null, pid, ppid, taskCr3, Waiting;
    }
  }

  /** The node after position `i`. */
  ghost function NextOf(list: seq<Task>, i: nat): Task? {
    if i + 1 < |list| then list[i + 1] else null
  }

  /** The `next` fields lead through `list`. */
  ghost predicate Links(list: seq<Task>)
    reads (set t | t in list)`next
  {
    forall i :: 0 <= i < |list| ==> list[i].next == NextOf(list, i)
  }

  lemma NextOfAt(list: seq<Task>, i: nat)
    ensures NextOf(list, i) == if i + 1 < |list| then list[i + 1] else null
  {
  }

  /** What the links of `l` look like once position `e` has been unlinked and hung on the end. */
  ghost function NextAfterMove(l: seq<Task>, e: nat, j: nat): Task?
    requires 1 <= e < |l| - 1 && j < |l|
  {
    if j == e then null else if j == |l| - 1 then l[e] else if j == e - 1 then l[e + 1] else l[j + 1]
  }

  lemma NextAfterMoveAt(l: seq<Task>, e: nat, j: nat)
    requires 1 <= e < |l| - 1 && j < |l|
    ensures NextAfterMove(l, e, j)
         == if j == e then null else if j == |l| - 1 then l[e] else if j == e - 1 then l[e + 1] else l[j + 1]
  {
  }

  lemma Relinked(l: seq<Task>, e: nat)
    requires 1 <= e < |l| - 1 && forall j :: 0 <= j < |l| ==> l[j].next == NextAfterMove(l, e, j)
    ensures MoveToEnd(l, e)[0] == l[0] && |MoveToEnd(l, e)| == |l|
    ensures forall i :: 0 <= i < |l| ==> MoveToEnd(l, e)[i].next == NextOf(MoveToEnd(l, e), i)
  {
    hide MoveToEnd, NextOf;
    MovedAt(l, e, 0);
    forall i | 0 <= i < |l|
      ensures MoveToEnd(l, e)[i].next == NextOf(MoveToEnd(l, e), i)
    {
      NextOfAt(MoveToEnd(l, e), i);
      MovedAt(l, e, i);
      if i < |l| - 1 { MovedAt(l, e, i + 1); }
    }
  }

  ghost function RecOf(t: Task): Rec
    reads t
  {
    Rec(t.pid, t.ppid, t.state, t.taskCr3)
  }

  /** getProcessID. */
  method GetProcessID(processID: array<bool>) returns (pid: nat)
    requires processID.Length == 100
    modifies processID
    ensures pid == NewPid(old(processID[..])) && processID[..] == MarkUsed(old(processID[..]), pid)
  {
    var id := 1;
    while id < 100
      invariant 1 <= id <= 100 && processID[..] == old(processID[..])
      invariant NewPid(processID[..]) == FirstUnused(processID[..], id)
    {
      if !processID[id] {
        processID[id] := true;
        return id;
      }
      id := id + 1;
    }
    return 0xFFFF;
  }

  class Scheduler {
    var current: Task               // init, the head of the list
    var currentRunningTask: Task
    var from: Task
    var to: Task
    var processID: array<bool>
    var cr3: nat
    ghost var list: seq<Task>

    ghost predicate Valid()
      reads this, list, processID
    {
      && processID.Length == 100
      && list != [] && list[0] == current && NoDuplicates(list) && currentRunningTask in list
      && Links(list)
    }

    ghost function Recs(): (r: map<Task, Rec>)
      reads this`list, list
      ensures forall t :: t in list ==> t in r && r[t] == RecOf(t)
      ensures forall t :: t in r ==> t in list
    {
      map t | t in list :: RecOf(t)
    }

    lemma RecsAre(m: map<Task, Rec>)
      requires forall t :: t in list ==> t in m && m[t] == RecOf(t)
      requires forall t :: t in m ==> t in list
      ensures Recs() == m
    {
    }

    ghost function Abs(): (s: Sched<Task>)
      reads this, list, processID
      requires Valid()
      ensures WellFormed(s)
    {
      Sched(list, Recs(), currentRunningTask, processID[..], cr3)
    }

    /** Boot: create_init_process, create_process of the shell, jump_to_user_mode into it. */
    constructor (kernelSpace: nat, shellSpace: nat)
      ensures Valid() && Inv(Abs()) && PidInv(Abs()) && LastBusy(Abs())
      ensures |list| == 2 && list[1] == currentRunningTask
    {
      var ids := new bool[100](_ => false);
      NextPid(ids[..], 0);
      var pid := GetProcessID(ids);
      var init := new Task(pid, 0, kernelSpace);
      NextPid(ids[..], 1);
      pid := GetProcessID(ids);
      var shell := new Task(pid, init.pid, shellSpace);
      init.next := shell;
      shell.state := Running;
      processID, current, currentRunningTask, from, to, cr3 := ids, init, shell, init, shell, shellSpace;
      list := [init, shell];
      new;
      hide NewPid, MarkUsed, UsedPrefix, Inv, PidInv, LastBusy;
      assert init in list && shell in list;
      RecsAre(map[init := Rec(1, 0, Waiting, kernelSpace), shell := Rec(2, 1, Running, shellSpace)]);
      BootKeepsInv(Abs(), init, shell, kernelSpace, shellSpace);
    }

    /** addProcessToList. */
    method AddProcessToList(newTask: Task)
      requires Valid() && newTask !in list && newTask.next == null
      modifies this`list, (set t | t in list)`next
      ensures Valid() && list == old(list) + [newTask] && Recs() == old(Recs())[newTask := RecOf(newTask)]
    {
      ghost var recs := Recs();
      hide NextOf;
      var ptr := current;
      ghost var k, l := 0, list;
      while ptr.next != null
        invariant 0 <= k < |l| && ptr == l[k]
        invariant Links(l)
        decreases |l| - k
      {
        NextOfAt(l, k);
        ptr := ptr.next;
        k := k + 1;
      }
      NextOfAt(l, k);
      ptr.next := newTask;
      list := l + [newTask];
      forall i | 0 <= i < |list|
        ensures list[i].next == NextOf(list, i)
      {
        NextOfAt(l, i);
        NextOfAt(list, i);
      }
      RecsAre(recs[newTask := RecOf(newTask)]);
    }

    /** The loop of moveProcessToEnd: unlinks the element and walks to the last task, or off the
        end when the element was the last one. */
    method Unlink(element: Task, ghost e: nat) returns (p: Task?)
      requires Valid() && 1 <= e < |list| && element == list[e]
      modifies (set t | t in list)`next
      ensures p == if e < |list| - 1 then list[|list| - 1] else null
      ensures forall j :: 0 <= j < |list| ==> list[j].next == if j == e - 1 then NextOf(list, e) else NextOf(list, j)
    {
      hide NextOf;
      p := current;
      ghost var k, moved := 0, false;
      ghost var n := |list|;
      while p != null && p.next != null
        invariant k < n ==> p == list[k]
        invariant if moved then e < k <= n && (k == n ==> p == null && e == n - 1) else k < e
        invariant forall j :: 0 <= j < n ==>
          list[j].next == if moved && j == e - 1 then NextOf(list, e) else NextOf(list, j)
        decreases n - k
      {
        NextOfAt(list, k);
        if p.next == element {
          NextOfAt(list, e);
          p.next := p.next.next;
          moved := true;
          k := k + 1;
        }
        p := p.next;
        k := k + 1;
      }
      if k < n {
        NextOfAt(list, k);
      }
    }

    /** moveProcessToEnd. Unlinking the last task leaves the walk on a null pointer. */
    method MoveProcessToEnd(element: Task, ghost e: nat) returns (stuck: bool)
      requires Valid() && 1 <= e < |list| && element == list[e]
      modifies this`list, (set t | t in list)`next
      ensures stuck <==> e == old(|list|) - 1
      ensures !stuck ==> Valid() && list == MoveToEnd(old(list), e) && Recs() == old(Recs())
    {
      hide NextOf, MoveToEnd, NextAfterMove;
      ghost var recs := Recs();
      hide Recs;
      var p := Unlink(element, e);
      if p == null {
        return true;
      }
      ghost var l := list;
      p.next := element;
      element.next := null;
      list := MoveToEnd(l, e);
      forall j | 0 <= j < |l|
        ensures l[j].next == NextAfterMove(l, e, j)
      {
        NextOfAt(l, j);
        NextOfAt(l, e);
        NextAfterMoveAt(l, e, j);
      }
      hide NoDuplicates;
      Relinked(l, e);
      MovedDistinct(l, e);
      MovedElements(l, e);
      RecsAre(recs);
      stuck := false;
    }

    /** getNextWaitingTask. */
    method GetNextWaitingTask() returns (next: Task?, stuck: bool)
      requires Valid()
      modifies this`list, (set t | t in list)`next
      ensures var i := FirstWaiting(old(list), old(Recs()), 1);
              && next == (if i < |old(list)| then old(list)[i] else null)
              && (stuck <==> i < |old(list)| && i == |old(list)| - 1)
              && (!stuck ==> Valid() && Recs() == old(Recs()))
              && (!stuck ==> list == if i < |old(list)| then MoveToEnd(old(list), i) else old(list))
    {
      hide NextOf, MoveToEnd, Recs, NoDuplicates;
      NextOfAt(list, 0);
      next := current.next;
      ghost var k := 1;
      while next != null && next.state != Waiting
        invariant 1 <= k <= |list| && next == if k < |list| then list[k] else null
        invariant Valid() && list == old(list) && Recs() == old(Recs())
        invariant FirstWaiting(list, Recs(), 1) == FirstWaiting(list, Recs(), k)
        invariant Links(list)
        decreases |list| - k
      {
        NextOfAt(list, k);
        next := next.next;
        k := k + 1;
      }
      stuck := false;
      if next != null {
        assert Recs()[list[k]].state == Waiting;
        stuck := MoveProcessToEnd(next, k);
      }
    }

    /** switchTask, without the registers. */
    method SwitchTask()
      requires Valid() && from in list && to in list
      modifies this`currentRunningTask, this`cr3, from`state, to`state
      ensures Valid() && Abs() == SwitchTo(old(Abs()), from, to)
    {
      hide Links, NoDuplicates, Recs, NextOf;
      ghost var recs := Recs();
      currentRunningTask := to;
      currentRunningTask.state := Running;
      if from.state != Ended {
        from.state := Waiting;
      }
      cr3 := to.taskCr3;
      RecsAre(Switch(recs, from, to));
    }

    /** jump_to_user_mode, without the registers. */
    method JumpToUserMode(task: Task)
      requires Valid() && task in list
      modifies this`currentRunningTask, this`cr3, task`state
      ensures Valid() && Abs() == Enter(old(Abs()), task)
    {
      hide Links, NoDuplicates, Recs;
      ghost var recs := Recs();
      currentRunningTask := task;
      currentRunningTask.state := Running;
      cr3 := task.taskCr3;
      RecsAre(recs[task := recs[task].(state := Running)]);
    }

    /** yield. */
    method Yield() returns (stuck: bool)
      requires Valid()
      modifies this`list, this`from, this`to, this`currentRunningTask, this`cr3, list
      ensures if stuck then YieldStep(old(Abs())).Stuck? else Valid() && YieldStep(old(Abs())) == Ok(Abs())
    {
      hide Links, NoDuplicates, Recs, SwitchTo, FirstWaiting, MoveToEnd;
      ghost var s := Abs();
      var next;
      next, stuck := GetNextWaitingTask();
      if !stuck && next != null {
        from := current;
        to := next;
        assert Abs() == s.(list := MoveToEnd(s.list, FirstWaiting(s.list, s.recs, 1)));
        SwitchTask();
      } else if !stuck {
        assert Abs() == s;
      }
    }

    /** syss_exit. */
    method ExitProcess() returns (stuck: bool)
      requires Valid()
      modifies this`list, this`from, this`to, this`currentRunningTask, this`cr3, list
      ensures if stuck then Step(old(Abs()), Exit).Stuck? else Valid() && Step(old(Abs()), Exit) == Ok(Abs())
    {
      hide Links, NoDuplicates, Recs, YieldStep;
      ghost var s := Abs();
      currentRunningTask.state := Zombie;
      RecsAre(BeforeYield(s, Exit).recs);
      stuck := Yield();
    }

    /** The search loop of killprocess. */
    method FindTask(pid: nat) returns (cur: Task?)
      requires Valid()
      ensures var i := FindPid(list, Recs(), pid, 0); cur == if i < |list| then list[i] else null
    {
      hide NextOf, NoDuplicates, Recs;
      cur := current;
      ghost var k := 0;
      while cur != null && cur.pid != pid
        invariant 0 <= k <= |list| && cur == if k < |list| then list[k] else null
        invariant FindPid(list, Recs(), pid, 0) == FindPid(list, Recs(), pid, k)
        decreases |list| - k
      {
        NextOfAt(list, k);
        cur := cur.next;
        k := k + 1;
      }
      assert cur != null ==> Recs()[list[k]].pid == pid;
    }

    /** killprocess. */
    method KillProcess(pid: nat) returns (stuck: bool)
      requires Valid()
      modifies this`list, this`from, this`to, this`currentRunningTask, this`cr3, list
      ensures if stuck then Step(old(Abs()), Kill(pid)).Stuck? else Valid() && Step(old(Abs()), Kill(pid)) == Ok(Abs())
    {
      hide Links, NextOf, NoDuplicates, Recs, YieldStep;
      ghost var s := Abs();
      var cur := FindTask(pid);
      if cur != null {
        cur.state := Ended;
      }
      RecsAre(BeforeYield(s, Kill(pid)).recs);
      stuck := Yield();
    }

    /** What the three creating calls share: a pid, a zeroed structure, the end of the list. */
    method NewTask(ppid: nat, space: nat) returns (task: Task)
      requires Valid()
      modifies this`list, processID, (set t | t in list)`next
      ensures Valid() && fresh(task) && task in list
      ensures Abs() == Append(old(Abs()), task, ppid, space)
    {
      hide Links, NoDuplicates, NewPid, MarkUsed, Recs;
      ghost var recs := Recs();
      var pid := GetProcessID(processID);
      task := new Task(pid, ppid, space);
      assert Recs() == recs;
      AddProcessToList(task);
    }

    /** create_process: the file is loaded into a clone of the current address space. */
    method CreateProcess(space: nat) returns (task: Task)
      requires Valid()
      modifies this`list, processID, (set t | t in list)`next
      ensures Valid() && fresh(task)
      ensures Step(old(Abs()), Create(task, space)) == Ok(Abs())
    {
      hide Links, NoDuplicates, Recs, Append;
      task := NewTask(current.pid, space);
    }

    /** proc_fork: copyParentToChild, then the switch to the child. */
    method ForkProcess(space: nat) returns (child: Task)
      requires Valid()
      modifies this`list, this`from, this`to, this`currentRunningTask, this`cr3, processID, list
      ensures Valid() && fresh(child)
      ensures Step(old(Abs()), Fork(child, space)) == Ok(Abs())
    {
      hide Links, NoDuplicates, Recs, SwitchTo, NewPid, MarkUsed;
      child := NewTask(currentRunningTask.pid, space);
      ghost var a := Abs();
      from := currentRunningTask;
      to := child;
      assert Abs() == a;
      SwitchTask();
    }

    /** sanexecve: a new task in place of the running one, entered by jump_to_user_mode. */
    method ExecProcess(space: nat) returns (image: Task)
      requires Valid()
      modifies this`list, this`currentRunningTask, this`cr3, processID, list
      ensures Valid() && fresh(image)
      ensures Step(old(Abs()), Exec(image, space)) == Ok(Abs())
    {
      hide Links, NoDuplicates, Recs, NewPid, MarkUsed, Enter;
      ghost var s := Abs();
      currentRunningTask.state := Ended;
      RecsAre(SetState(s, s.running, Ended).recs);
      assert Abs() == SetState(s, s.running, Ended);
      image := NewTask(currentRunningTask.ppid, space);
      JumpToUserMode(image);
    }
  }
}
