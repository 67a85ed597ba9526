/**
  What system calls on tasks do for the tasks concerned (src/kernel/exit.c, src/kernel/task.c), told by uids,
  groups and runs: who gets a signal, who wakes up, what a child starts with, what a parent reads.
 */
module TaskEffects {
  import opened Limits
  import opened Tasks

  // ---- Signals ------------------------------------------------------------

  /** Root may signal everybody, others those with whom they share a real or effective uid. */
  predicate SharesUid(a: Task, b: Task)
  {
    a.uid == ROOT_UID || a.euid == ROOT_UID || a.uid in {b.uid, b.euid} || a.euid in {b.uid, b.euid}
  }

  /** The tasks kill(pid) is meant for: one, the caller's group, all, or a group by its number. */
  ghost function Targets(s: System, pid: int): set<nat>
    requires Shaped(s)
  {
    var all := set i: nat | i < NR_TASKS && Live(s.tasks[i]);
    if pid > 0 then all * {pid}
    else if pid == 0 then set i | i in all && s.tasks[i].pgrp == s.tasks[s.cur].pgrp
    else if pid == -1 then all
    else set i | i in all && s.tasks[i].pgrp == -pid
  }

  /** kill makes its signal pending for exactly the targets the caller may signal, and changes nothing else. */
  lemma KillReachesTargets(s: System, pid: int, sign: nat, i: nat)
    requires Shaped(s) && pid < NR_TASKS && i < NR_TASKS
    ensures var s' := Kill(s, pid, sign);
            && s'.cur == s.cur && s'.tasks[i].(signals := {}) == s.tasks[i].(signals := {})
            && s'.tasks[i].signals == s.tasks[i].signals +
                 if 1 <= sign <= 32 && i in Targets(s, pid) && (SharesUid(s.tasks[s.cur], s.tasks[i]) || sign == SIGCONT)
                 then {sign} else {}
  {
  }

  /** What kill returns: whether there is a target, and whether it may signal one. */
  lemma KillSaysWhetherItReached(s: System, pid: int, sign: nat)
    requires Shaped(s) && pid < NR_TASKS
    ensures KillResult(s, pid, sign) ==
      if !(1 <= sign <= 32) then EINVAL
      else if Targets(s, pid) == {} then ESRCH
      else if exists i :: i in Targets(s, pid) && (SharesUid(s.tasks[s.cur], s.tasks[i]) || sign == SIGCONT) then Ok
      else EPERM
  {
    var me := s.tasks[s.cur];
    forall i: nat | i < NR_TASKS
      ensures i in Targets(s, pid) <==> Addressed(me, s.tasks[i], i, pid)
      ensures MaySignal(me, s.tasks[i], sign) <==> SharesUid(me, s.tasks[i]) || sign == SIGCONT
    {
    }
    if i: nat :| i < NR_TASKS && Addressed(me, s.tasks[i], i, pid) {
      assert i in Targets(s, pid);
    }
  }

  // ---- exit ---------------------------------------------------------------

  /** Whom an exiting task tells: its parent, or all of the group when that is task 0, if it has the right. */
  ghost predicate IsTold(s: System, i: nat)
    requires Shaped(s) && i < NR_TASKS
  {
    var me, t := s.tasks[s.cur], s.tasks[i];
    Live(t) && SharesUid(me, t) && if me.parent == 0 then t.pgrp == me.pgrp else i == me.parent
  }

  /** After exit, SIGCHLD is pending for those who are told, and whoever had it before; no other signal changes. */
  lemma ExitTellsTheParent(s: System, status: int, i: nat)
    requires Safe(s) && s.cur >= 2 && i < NR_TASKS
    ensures var s' := Exit(s, status);
            && Shaped(s') && (SIGCHLD in s'.tasks[i].signals <==> SIGCHLD in s.tasks[i].signals || IsTold(s, i))
            && forall sign :: sign != SIGCHLD ==> (sign in s'.tasks[i].signals <==> sign in s.tasks[i].signals)
  {
    var b := Bury(s, status);
    var rank :| Ranked(s.tasks, rank);
    assert HasParent(s.tasks, s.cur) && HasParent(s.tasks, i) && BelowParent(s.tasks, rank, s.cur);
    assert b.tasks[s.cur].parent == s.tasks[s.cur].parent;
    assert b.tasks[i].(parent := 0, state := Zombie, exitCode := 0) == s.tasks[i].(parent := 0, state := Zombie, exitCode := 0);
    SwitchFacts(Dying(s, status));
    hide SwitchTask, Bury, Safe, Sound;
  }

  /** A parent that sleeps until its child ends is woken by the exit. */
  lemma ExitWakesTheParent(s: System, status: int)
    requires Safe(s) && s.cur >= 2
    requires var p := s.tasks[s.cur].parent; 0 < p < NR_TASKS && SharesUid(s.tasks[s.cur], s.tasks[p]) && s.tasks[p].state == Blocked
    ensures var (p, s') := (s.tasks[s.cur].parent, Exit(s, status)); s'.cur == p || Ready(s', p)
  {
    var p, k := s.tasks[s.cur].parent, Dying(s, status);
    var rank :| Ranked(s.tasks, rank);
    assert HasParent(s.tasks, s.cur) && BelowParent(s.tasks, rank, s.cur);
    ExitTellsTheParent(s, status, p);
    DyingFacts(s, status);
    SwitchFacts(k);
    hide Sound, SwitchTask, Dying;
    assert SIGCHLD in k.tasks[p].signals;
    SwitchComesCloser(k, p);
  }

  /** It runs within 64 switches. */
  lemma SleepingParentRuns(s: System, status: int, ops: seq<Op>)
    requires Safe(s) && s.cur >= 2
    requires var p := s.tasks[s.cur].parent; 0 < p < NR_TASKS && SharesUid(s.tasks[s.cur], s.tasks[p]) && s.tasks[p].state == Blocked
    requires Safe(Exit(s, status)) && NeverRuns(Exit(s, status), ops, s.tasks[s.cur].parent)
    ensures Switches(ops) < NR_TASKS
  {
    ExitWakesTheParent(s, status);
    WaitingIsBounded(Exit(s, status), ops, s.tasks[s.cur].parent);
  }

  // ---- exit and waitpid ---------------------------------------------------

  lemma ExitBuries(s: System, status: int)
    requires Safe(s) && s.cur >= 2
    ensures var s' := Exit(s, status);
            && Shaped(s') && s'.tasks[s.cur].pid == s.cur && s'.tasks[s.cur].state == Zombie && s'.tasks[s.cur].exitCode == status
    ensures forall i :: 0 <= i < NR_TASKS && Live(s.tasks[i]) ==>
              Exit(s, status).tasks[i].parent == if s.tasks[i].parent == s.cur then 1 else s.tasks[i].parent
  {
    ExitKeeps(s, status);
    DyingFacts(s, status);
    SwitchFacts(Dying(s, status));
  }

  lemma ZombieIsKept(s: System, op: Op, t: nat)
    requires Safe(s) && Enabled(s, op) && t < NR_TASKS && s.tasks[t].state == Zombie
    requires !(op.Spawn? && FreeSlot(s.tasks, 0) == t)
    ensures var s' := Apply(s, op);
            && Shaped(s') && s'.tasks[t].state == Zombie && s'.tasks[t].exitCode == s.tasks[t].exitCode
            && s'.tasks[t].pid == if op == Wait(t) then NO_TASK else s.tasks[t].pid
  {
    match op
    case Switch => SwitchFacts(s);
    case Leave(status) =>
      assert s.cur != t;
      DyingFacts(s, status);
      SwitchFacts(Dying(s, status));
    case _ =>
  }

  /** The run does not wait for task t. */
  ghost predicate NotWaitedFor(ops: seq<Op>, t: nat)
  {
    forall i :: 0 <= i < |ops| ==> ops[i] != Wait(t)
  }

  lemma {:induction false} ZombieStays(s: System, ops: seq<Op>, s': System, t: nat)
    requires Safe(s) && Runs(s, ops, s') && NeverReused(s, ops, t)
    requires t < NR_TASKS && s.tasks[t].state == Zombie
    ensures Safe(s') && s'.tasks[t].state == Zombie && s'.tasks[t].exitCode == s.tasks[t].exitCode
    ensures NotWaitedFor(ops, t) ==> s'.tasks[t].pid == s.tasks[t].pid
    decreases |ops|
  {
    if ops != [] {
      ZombieIsKept(s, ops[0], t);
      ApplyKeeps(s, ops[0]);
      ZombieStays(Apply(s, ops[0]), ops[1..], s', t);
      if NotWaitedFor(ops, t) {
        assert ops[0] != Wait(t) && forall i :: 0 <= i < |ops[1..]| ==> ops[1..][i] == ops[i + 1];
      }
    }
  }

  /**
    Whatever happens between a task's exit and the first waitpid for it, waitpid may return, reads the status the
    task left, and frees its slot for the next fork.
   */
  lemma ExitThenWait(s: System, status: int, ops: seq<Op>, s': System)
    requires Safe(s) && s.cur >= 2 && s.tasks[s.cur].state == Running && NotWaitedFor(ops, s.cur)
    requires Safe(Exit(s, status)) && Runs(Exit(s, status), ops, s') && NeverReused(Exit(s, status), ops, s.cur)
    ensures Safe(s') && s'.tasks[s.cur].pid == s.cur && s'.tasks[s.cur].exitCode == status
    ensures s'.tasks[s'.cur].state == Running ==> Enabled(s', Wait(s.cur))
    ensures var s'' := Apply(s', Wait(s.cur));
            && !Live(s''.tasks[s.cur]) && FreeSlot(s''.tasks, 0) <= s.cur
            && forall i :: 0 <= i < NR_TASKS && i != s.cur ==> s''.tasks[i] == s'.tasks[i]
  {
    ExitBuries(s, status);
    ZombieStays(Exit(s, status), ops, s', s.cur);
    hide Exit, Runs, NeverReused;
  }

  // ---- fork ---------------------------------------------------------------

  /** The child is in a slot nobody used, has the caller for its parent, and starts waiting, without signals. */
  lemma ForkMakesAChild(s: System)
    requires Safe(s)
    ensures var s' := Fork(s);
            if forall i :: 0 <= i < NR_TASKS ==> Live(s.tasks[i]) then s' == s
            else exists c: nat :: c < NR_TASKS && IsChild(s, s', c)
  {
    var c := FreeSlot(s.tasks, 0);
    if c < NR_TASKS {
      assert IsChild(s, Fork(s), c);
    }
  }

  /** Slot c, the first that was free, holds a child of the current task; the other slots are as they were. */
  ghost predicate IsChild(s: System, s': System, c: nat)
    requires Shaped(s) && c < NR_TASKS
  {
    && Shaped(s') && s'.cur == s.cur && !Live(s.tasks[c]) && (forall i :: 0 <= i < c ==> Live(s.tasks[i]))
    && (forall i :: 0 <= i < NR_TASKS && i != c ==> s'.tasks[i] == s.tasks[i])
    && var me, child := s.tasks[s.cur], s'.tasks[c];
       && child.pid == c && child.parent == s.cur && child.state == Waiting && child.signals == {} && child.exitCode == 0
       && child.uid == me.uid && child.euid == me.euid && child.pgrp == me.pgrp
  }

  /** A child that nobody kills first runs within 64 switches. */
  lemma ChildRuns(s: System, c: nat, ops: seq<Op>)
    requires Safe(s) && s.tasks[s.cur].state == Running && c < NR_TASKS && IsChild(s, Fork(s), c)
    requires Safe(Fork(s)) && NeverRuns(Fork(s), ops, c)
    ensures Switches(ops) < NR_TASKS
  {
    WaitingIsBounded(Fork(s), ops, c);
  }

  // ---- pause --------------------------------------------------------------

  /** In the run no signal becomes pending for task t, which has none. */
  ghost predicate LeftAlone(s: System, ops: seq<Op>, t: nat)
    requires Safe(s) && t < NR_TASKS
    decreases |ops|
  {
    && s.tasks[t].signals == {}
    && (ops == [] || (Enabled(s, ops[0]) && Safe(Apply(s, ops[0])) && LeftAlone(Apply(s, ops[0]), ops[1..], t)))
  }

  lemma {:induction false} SleeperSleeps(s: System, ops: seq<Op>, s': System, t: nat)
    requires Safe(s) && 0 < t < NR_TASKS && Live(s.tasks[t]) && s.tasks[t].state == Blocked && s.cur != t
    requires Runs(s, ops, s') && LeftAlone(s, ops, t)
    ensures Shaped(s') && s'.cur != t && s'.tasks[t].state == Blocked
    decreases |ops|
  {
    if ops != [] {
      var s1 := Apply(s, ops[0]);
      assert s1.cur != t && s1.tasks[t].state == Blocked && Live(s1.tasks[t]) by {
        StillAsleep(s, ops[0], t);
      }
      SleeperSleeps(s1, ops[1..], s', t);
    }
  }

  lemma StillAsleep(s: System, op: Op, t: nat)
    requires Safe(s) && Enabled(s, op) && 0 < t < NR_TASKS && Live(s.tasks[t]) && s.tasks[t].state == Blocked && s.cur != t
    requires Safe(Apply(s, op)) && s.tasks[t].signals == {} && Apply(s, op).tasks[t].signals == {}
    ensures Apply(s, op).cur != t && Apply(s, op).tasks[t].state == Blocked && Live(Apply(s, op).tasks[t])
  {
    if op.Leave? {
      DyingFacts(s, op.status);
      NotPicked(Dying(s, op.status), t);
      SwitchFacts(Dying(s, op.status));
    } else if op.Switch? {
      NotPicked(s, t);
    }
  }

  lemma NotPicked(s: System, t: nat)
    requires Shaped(s) && s.tasks[s.cur].pid >= -1 && 0 < t < NR_TASKS && s.tasks[t].state == Blocked && SwitchTask(s).tasks[t].signals == {}
    ensures SwitchTask(s).cur != t && SwitchTask(s).tasks[t].state == Blocked
  {
  }

  /** pause ends the turn, and a task that pauses does not run again before a signal is pending for it. */
  lemma PauseSleeps(s: System, ops: seq<Op>, s': System)
    requires Safe(s) && 0 < s.cur && s.tasks[s.cur].state == Running && s.tasks[s.cur].signals == {}
    requires Runs(s, [Pausing, Switch] + ops, s')
    requires Safe(Apply(Apply(s, Pausing), Switch)) && LeftAlone(Apply(Apply(s, Pausing), Switch), ops, s.cur)
    ensures Shaped(s') && s'.cur != s.cur && s'.tasks[s.cur].state == Blocked
  {
    var s1 := Apply(s, Pausing);
    var s2 := Apply(s1, Switch);
    assert ([Pausing, Switch] + ops)[1..] == [Switch] + ops && ([Switch] + ops)[1..] == ops;
    assert Runs(s1, [Switch] + ops, s') && Runs(s2, ops, s');
    ApplyKeeps(s, Pausing);
    NotPicked(s1, s.cur);
    SleeperSleeps(s2, ops, s', s.cur);
  }
}
