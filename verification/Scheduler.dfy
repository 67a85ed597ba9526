/** schedule, switch_task and the system calls on tasks, changing the global task array in place. */
module Scheduler {
  import opened Limits
  import opened Tasks

  class TaskTable {
    const tasks: array<Task>
    var current: nat

    ghost predicate Valid()
      reads this, tasks
    {
      tasks.Length == NR_TASKS && current < NR_TASKS && -1 <= tasks[current].pid < NR_TASKS
    }

    ghost function Abs(): System
      reads this, tasks
    {
      System(tasks[..], current)
    }

    /** setup_tasking; slots other than 0 start out zeroed, as the static array is. */
    constructor ()
      ensures Valid() && fresh(tasks)
      ensures Abs() == Setup()
    {
      tasks := new Task[NR_TASKS](i => Task(if i == 0 then 0 else NO_TASK, 0, 0, Running, {}, ROOT_UID, ROOT_UID, 0));
      current := 0;
      new;
      assert tasks[..] == Setup().tasks;
    }

    /** Wakes what has a signal pending, then looks past the current task for one that waits. */
    method Schedule() returns (next: nat)
      requires Valid()
      modifies tasks
      ensures tasks[..] == WakeAll(old(tasks[..])) && next == Pick(tasks[..], tasks[current].pid + 1)
      ensures Valid()
    {
      var i: int := NR_TASKS - 1;
      while i >= 0
        invariant -1 <= i < NR_TASKS
        invariant forall j :: 0 <= j <= i ==> tasks[j] == old(tasks[j])
        invariant forall j :: i < j < NR_TASKS ==> tasks[j] == Wake(old(tasks[j]))
      {
        if tasks[i].pid != NO_TASK && tasks[i].signals != {} && tasks[i].state == Blocked {
          tasks[i] := tasks[i].(state := Waiting);
        }
        i := i - 1;
      }
      assert tasks[..] == WakeAll(old(tasks[..]));
      i := tasks[current].pid + 1;
      while i < NR_TASKS
        invariant 0 <= i <= NR_TASKS
        invariant Pick(tasks[..], i) == Pick(tasks[..], tasks[current].pid + 1)
      {
        if tasks[i].pid != NO_TASK && tasks[i].state == Waiting {
          break;
        }
        i := i + 1;
      }
      return if i == NR_TASKS then 0 else i;
    }

    method SwitchTask()
      requires Valid() && forall i :: 0 <= i < NR_TASKS ==> -1 <= tasks[i].pid < NR_TASKS
      modifies this, tasks
      ensures Valid() && Abs() == Tasks.SwitchTask(old(Abs()))
    {
      if tasks[current].state == Running {
        tasks[current] := tasks[current].(state := Waiting);
      }
      ghost var parked := tasks[..];
      assert parked == if old(tasks[current]).state == Running then SetState(old(tasks[..]), current, Waiting) else old(tasks[..]);
      current := Schedule();
      tasks[current] := tasks[current].(state := Running);
    }

    method Pause()
      requires Valid() && forall i :: 0 <= i < NR_TASKS ==> -1 <= tasks[i].pid < NR_TASKS
      modifies this, tasks
      ensures Valid() && Abs() == Tasks.SwitchTask(Block(old(Abs())))
    {
      tasks[current] := tasks[current].(state := Blocked);
      assert Abs() == Block(old(Abs()));
      SwitchTask();
    }

    /** True when the caller may signal task i. */
    method SendSignal(i: nat, sign: nat) returns (ok: bool)
      requires Valid() && i < NR_TASKS
      modifies tasks
      ensures ok == MaySignal(old(tasks[current]), old(tasks[i]), sign)
      ensures tasks[..] == old(tasks[..])[i := Tasks.SendSignal(old(tasks[current]), old(tasks[i]), sign)]
    {
      var me, t := tasks[current], tasks[i];
      if me.uid == 0 || me.euid == 0 || t.uid == me.uid || t.uid == me.euid || t.euid == me.uid || t.euid == me.euid
         || sign == SIGCONT {
        tasks[i] := t.(signals := t.signals + {sign});
        return true;
      }
      return false;
    }

    method Kill(pid: int, sign: nat) returns (r: Errno)
      requires Valid() && pid < NR_TASKS
      requires forall i :: 0 <= i < NR_TASKS ==> tasks[i].pid == i || tasks[i].pid == NO_TASK
      modifies tasks
      ensures Abs() == Tasks.Kill(old(Abs()), pid, sign) && r == KillResult(old(Abs()), pid, sign)
    {
      if sign < 1 || sign > 32 {
        return EINVAL;
      }
      if pid > 0 {
        if tasks[pid].pid == NO_TASK {
          assert Tasks.Kill(old(Abs()), pid, sign).tasks == old(tasks[..]);
          return ESRCH;
        }
        assert Addressed(tasks[current], tasks[pid], pid, pid);
        var ok := SendSignal(pid, sign);
        assert tasks[..] == Tasks.Kill(old(Abs()), pid, sign).tasks;
        return if ok then Ok else EPERM;
      }
      var found, perm := false, false;
      var i := 0;
      ghost var me := tasks[current];
      while i < NR_TASKS
        invariant 0 <= i <= NR_TASKS && tasks.Length == NR_TASKS && current == old(current)
        invariant tasks[current].(signals := {}) == me.(signals := {})
        invariant forall j :: i <= j < NR_TASKS ==> tasks[j] == old(tasks[j])
        invariant forall j: nat :: j < i ==>
                    tasks[j] == if Addressed(me, old(tasks[j]), j, pid) then Tasks.SendSignal(me, old(tasks[j]), sign) else old(tasks[j])
        invariant found <==> exists j: nat :: j < i && Addressed(me, old(tasks[j]), j, pid)
        invariant perm <==> exists j: nat :: j < i && Addressed(me, old(tasks[j]), j, pid) && MaySignal(me, old(tasks[j]), sign)
      {
        if tasks[i].pid != NO_TASK
           && (if pid == 0 then tasks[i].pgrp == tasks[current].pgrp else pid == -1 || tasks[i].pgrp == -pid) {
          var ok := SendSignal(i, sign);
          found := true;
          if ok {
            perm := true;
          }
        }
        i := i + 1;
      }
      assert tasks[..] == Tasks.Kill(old(Abs()), pid, sign).tasks;
      return if !found then ESRCH else if !perm then EPERM else Ok;
    }

    /** sys_exit for any task but the kernel's own; closing files and freeing memory are elsewhere. */
    method Exit(status: int)
      requires Valid() && current > 0
      requires forall i :: 0 <= i < NR_TASKS ==> tasks[i].pid == i || tasks[i].pid == NO_TASK
      requires Live(tasks[current]) && Live(tasks[1]) && tasks[current].parent < NR_TASKS
      modifies this, tasks
      ensures Valid() && Abs() == Tasks.Exit(old(Abs()), status)
    {
      var i := 0;
      while i < NR_TASKS
        invariant 0 <= i <= NR_TASKS && current == old(current)
        invariant forall j :: i <= j < NR_TASKS ==> tasks[j] == old(tasks[j])
        invariant forall j :: 0 <= j < i ==> tasks[j] == Adopt(old(tasks[j]), old(tasks[current]).pid)
      {
        if tasks[i].pid != NO_TASK && tasks[i].parent == tasks[current].pid {
          tasks[i] := tasks[i].(parent := 1);
        }
        i := i + 1;
      }
      tasks[current] := tasks[current].(state := Zombie, exitCode := status);
      assert tasks[..] == Bury(old(Abs()), status).tasks;
      var _ := Kill(tasks[current].parent, SIGCHLD);
      SwitchTask();
    }

    /** sys_waitpid after its loop: the task it waits for is a zombie. */
    method WaitPid(pid: int) returns (r: Errno, status: int)
      requires Valid() && (0 < pid < NR_TASKS ==> tasks[pid].state == Zombie)
      modifies tasks
      ensures Abs() == Reap(old(Abs()), pid)
      ensures if 0 < pid < NR_TASKS then r == Ok && status == old(tasks[pid]).exitCode else r == ECHILD
    {
      if pid <= 0 || pid >= NR_TASKS {
        return ECHILD, 0;
      }
      status := tasks[pid].exitCode;
      tasks[pid] := tasks[pid].(pid := NO_TASK);
      return Ok, status;
    }

    /** The slot of the child, -1 when the table is full. */
    method Fork() returns (r: int)
      requires Valid()
      modifies tasks
      ensures Abs() == Tasks.Fork(old(Abs()))
      ensures r == if FreeSlot(old(tasks[..]), 0) == NR_TASKS then -1 else FreeSlot(old(tasks[..]), 0)
    {
      var i := 0;
      while i < NR_TASKS
        invariant 0 <= i <= NR_TASKS
        invariant FreeSlot(tasks[..], i) == FreeSlot(tasks[..], 0)
      {
        if tasks[i].pid == NO_TASK {
          break;
        }
        i := i + 1;
      }
      if i == NR_TASKS {
        return -1;
      }
      var parent := tasks[current];
      tasks[i] := parent.(pid := i, exitCode := 0, state := Waiting, parent := parent.pid, signals := {});
      return i;
    }
  }
}
