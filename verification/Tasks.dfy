/**
  The task table of src/kernel/sched.c, src/kernel/exit.c and src/kernel/task.c as a value: what each
  system call makes of it, what every run keeps, and how long a ready task can wait.
 */
module Tasks {
  import opened Limits

  const NO_TASK: int := -1

  const SIGCHLD: nat := 17
  const SIGCONT: nat := 18
  const ROOT_UID: nat := 0

  datatype TaskState = Running | Waiting | Blocked | Zombie

  /** signals holds the numbers of the pending signals; nothing ever takes one out again. */
  datatype Task = Task(
    pid: int,
    parent: int,
    pgrp: int,
    state: TaskState,
    signals: set<nat>,
    uid: nat,
    euid: nat,
    exitCode: int)

  datatype System = System(tasks: seq<Task>, cur: nat)

  ghost predicate Shaped(s: System)
  {
    |s.tasks| == NR_TASKS && s.cur < NR_TASKS
  }

  predicate Live(t: Task)
  {
    t.pid != NO_TASK
  }

  // ---- schedule and switch_task -------------------------------------------

  /** A blocked task with a signal pending may run again. */
  function Wake(t: Task): Task
  {
    if Live(t) && t.signals != {} && t.state == Blocked then t.(state := Waiting) else t
  }

  function WakeAll(tasks: seq<Task>): (r: seq<Task>)
    ensures |r| == |tasks|
  {
    seq(|tasks|, i requires 0 <= i < |tasks| => Wake(tasks[i]))
  }

  /** The first waiting task at or after i, else the kernel's own task 0. */
  function Pick(tasks: seq<Task>, i: nat): (r: nat)
    requires |tasks| > 0
    ensures r < |tasks|
    ensures r == 0 || (i <= r && Live(tasks[r]) && tasks[r].state == Waiting)
    ensures forall j :: i <= j < (if r == 0 && i > 0 then |tasks| else r) ==> !(Live(tasks[j]) && tasks[j].state == Waiting)
    decreases |tasks| - i
  {
    if i >= |tasks| then 0
    else if Live(tasks[i]) && tasks[i].state == Waiting then i
    else Pick(tasks, i + 1)
  }

  function SetState(tasks: seq<Task>, i: nat, state: TaskState): seq<Task>
    requires i < |tasks|
  {
    tasks[i := tasks[i].(state := state)]
  }

  function SwitchTask(s: System): System
    requires Shaped(s) && s.tasks[s.cur].pid >= -1
  {
    var parked := if s.tasks[s.cur].state == Running then SetState(s.tasks, s.cur, Waiting) else s.tasks;
    var woken := WakeAll(parked);
    var next := Pick(woken, s.tasks[s.cur].pid + 1);
    System(SetState(woken, next, Running), next)
  }

  /** The first half of sys_pause; switch_task is the second. */
  function Block(s: System): System
    requires Shaped(s)
  {
    System(SetState(s.tasks, s.cur, Blocked), s.cur)
  }

  // ---- signals ------------------------------------------------------------

  predicate MaySignal(me: Task, t: Task, sign: nat)
  {
    || me.uid == 0 || me.euid == 0
    || t.uid == me.uid || t.uid == me.euid || t.euid == me.uid || t.euid == me.euid
    || sign == SIGCONT
  }

  function SendSignal(me: Task, t: Task, sign: nat): Task
  {
    if MaySignal(me, t, sign) then t.(signals := t.signals + {sign}) else t
  }

  /** Whom kill(pid) is meant for. */
  predicate Addressed(me: Task, t: Task, i: nat, pid: int)
  {
    Live(t) &&
    if pid == 0 then t.pgrp == me.pgrp
    else if pid == -1 then true
    else if pid < -1 then t.pgrp == -pid
    else i == pid
  }

  function Kill(s: System, pid: int, sign: nat): (r: System)
    requires Shaped(s)
    ensures Shaped(r)
  {
    if sign < 1 || sign > 32 then s
    else
      var me := s.tasks[s.cur];
      System(seq(NR_TASKS, i requires 0 <= i < NR_TASKS =>
        if Addressed(me, s.tasks[i], i, pid) then SendSignal(me, s.tasks[i], sign) else s.tasks[i]), s.cur)
  }

  ghost function KillResult(s: System, pid: int, sign: nat): Errno
    requires Shaped(s)
  {
    var me := s.tasks[s.cur];
    if sign < 1 || sign > 32 then EINVAL
    else if forall i: nat :: i < NR_TASKS ==> !Addressed(me, s.tasks[i], i, pid) then ESRCH
    else if forall i: nat :: i < NR_TASKS && Addressed(me, s.tasks[i], i, pid) ==> !MaySignal(me, s.tasks[i], sign) then EPERM
    else Ok
  }

  // ---- exit, waitpid, fork ------------------------------------------------

  function Adopt(t: Task, pid: int): Task
  {
    if Live(t) && t.parent == pid then t.(parent := 1) else t
  }

  /** Task 1 inherits the children; the caller becomes a zombie, tells its parent, and gives up the processor. */
  function Exit(s: System, status: int): System
    requires Shaped(s) && s.tasks[s.cur].pid >= 0
  {
    SwitchTask(Dying(s, status))
  }

  function Bury(s: System, status: int): (r: System)
    requires Shaped(s)
    ensures Shaped(r) && r.tasks[r.cur].pid == s.tasks[s.cur].pid
  {
    var adopted := seq(NR_TASKS, i requires 0 <= i < NR_TASKS => Adopt(s.tasks[i], s.tasks[s.cur].pid));
    System(adopted[s.cur := adopted[s.cur].(state := Zombie, exitCode := status)], s.cur)
  }

  /** What waitpid does once the task it spins on has become a zombie. */
  function Reap(s: System, pid: int): System
    requires Shaped(s)
  {
    if pid <= 0 || pid >= NR_TASKS then s
    else System(s.tasks[pid := s.tasks[pid].(pid := NO_TASK)], s.cur)
  }

  /** The lowest free slot, NR_TASKS when the table is full. */
  function FreeSlot(tasks: seq<Task>, i: nat): (r: nat)
    requires i <= |tasks|
    ensures i <= r <= |tasks| && (r < |tasks| ==> !Live(tasks[r])) && forall j :: i <= j < r ==> Live(tasks[j])
    decreases |tasks| - i
  {
    if i == |tasks| || !Live(tasks[i]) then i else FreeSlot(tasks, i + 1)
  }

  function Fork(s: System): System
    requires Shaped(s)
  {
    var i := FreeSlot(s.tasks, 0);
    if i == NR_TASKS then s
    else
      var child := s.tasks[s.cur].(pid := i, parent := s.tasks[s.cur].pid, state := Waiting, signals := {}, exitCode := 0);
      System(s.tasks[i := child], s.cur)
  }

  // ---- What every run keeps -----------------------------------------------

  /** The parent of task i is live and no zombie. */
  ghost predicate HasParent(tasks: seq<Task>, i: nat)
  {
    i < |tasks| && Live(tasks[i]) ==>
      && 0 <= tasks[i].parent < |tasks|
      && Live(tasks[tasks[i].parent]) && tasks[tasks[i].parent].state != Zombie
  }

  ghost predicate BelowParent(tasks: seq<Task>, rank: seq<nat>, i: nat)
  {
    0 < i < |tasks| == |rank| && Live(tasks[i]) ==>
      0 <= tasks[i].parent < |tasks| && rank[tasks[i].parent] < rank[i]
  }

  /** Distance to the root along parent links, as far as ranks tell: 0 for task 0, 1 for task 1, more for the rest. */
  ghost predicate Ranked(tasks: seq<Task>, rank: seq<nat>)
  {
    && |rank| == |tasks| == NR_TASKS && rank[0] == 0 && rank[1] == 1
    && (forall i :: 2 <= i < NR_TASKS ==> 2 <= rank[i])
    && forall i :: BelowParent(tasks, rank, i)
  }

  /** The task table, leaving aside the state of the current task. */
  ghost predicate Sound(s: System)
  {
    && Shaped(s)
    && (forall i :: 0 <= i < NR_TASKS ==> s.tasks[i].pid == i || s.tasks[i].pid == NO_TASK)
    && (forall i :: 0 <= i < NR_TASKS && Live(s.tasks[i]) ==> s.tasks[i].pgrp == 0)
    && Live(s.tasks[0]) && s.tasks[0].state != Zombie && s.tasks[0].parent == 0
    // Task 1 is the first to be forked and stays.
    && (Live(s.tasks[1]) ==> s.tasks[1].state != Zombie && s.tasks[1].parent == 0)
    && (!Live(s.tasks[1]) ==> s.cur == 0 && forall i :: 1 <= i < NR_TASKS ==> !Live(s.tasks[i]))
    // No other task than the current one is marked as running.
    && Live(s.tasks[s.cur])
    && (forall i :: 0 <= i < NR_TASKS && i != s.cur && Live(s.tasks[i]) ==> s.tasks[i].state != Running)
    && (forall i :: HasParent(s.tasks, i))
    && exists rank :: Ranked(s.tasks, rank)
  }

  /** Between two operations the current task is running, or on its way into sys_pause. */
  ghost predicate Safe(s: System)
  {
    Sound(s) && s.tasks[s.cur].state in {Running, Blocked}
  }

  /** setup_tasking: task 0 runs as root, every other slot is free. */
  function Setup(): System
  {
    System(seq(NR_TASKS, i => Task(if i == 0 then 0 else NO_TASK, 0, 0, Running, {}, ROOT_UID, ROOT_UID, 0)), 0)
  }

  lemma SetupIsSafe()
    ensures Safe(Setup())
  {
    assert forall i :: HasParent(Setup().tasks, i);
    assert Ranked(Setup().tasks, seq(NR_TASKS, i requires 0 <= i => if i < 2 then i else 2));
  }

  datatype Op =
    | Switch
    | Pausing
    | Signal(pid: int, sign: nat)
    | Leave(status: int)
    | Wait(pid: int)
    | Spawn

  /**
    A task between the two halves of sys_pause can only be switched; waitpid returns once its task is a
    zombie; tasks 0 and 1 never exit; kill(NR_TASKS), which reads past the table, is not called.
   */
  ghost predicate Enabled(s: System, op: Op)
    requires Shaped(s)
  {
    (op.Switch? || s.tasks[s.cur].state == Running) &&
    match op
    case Signal(pid, _) => pid < NR_TASKS
    case Leave(_) => s.cur >= 2
    case Wait(pid) => 0 < pid < NR_TASKS ==> s.tasks[pid].state == Zombie
    case _ => true
  }

  function Apply(s: System, op: Op): System
    requires Shaped(s) && s.tasks[s.cur].pid >= 0
  {
    match op
    case Switch => SwitchTask(s)
    case Pausing => Block(s)
    case Signal(pid, sign) => Kill(s, pid, sign)
    case Leave(status) => Exit(s, status)
    case Wait(pid) => Reap(s, pid)
    case Spawn => Fork(s)
  }

  /** Parents and liveness alone decide the rank condition. */
  lemma SameRanks(a: seq<Task>, b: seq<Task>, rank: seq<nat>)
    requires Ranked(a, rank) && |b| == NR_TASKS
    requires forall i :: 0 <= i < NR_TASKS && Live(b[i]) ==>
               Live(a[i]) && (b[i].parent == a[i].parent || (i >= 2 && b[i].parent == 1))
    ensures Ranked(b, rank)
  {
    forall i: nat
      ensures BelowParent(b, rank, i)
    {
      assert BelowParent(a, rank, i);
    }
  }

  /** Parents, liveness and zombies alone decide the parent condition. */
  lemma SameParents(a: seq<Task>, b: seq<Task>)
    requires |a| == |b| && forall i :: HasParent(a, i)
    requires forall i :: 0 <= i < |a| ==>
               Live(b[i]) == Live(a[i]) && b[i].parent == a[i].parent && (b[i].state == Zombie ==> a[i].state == Zombie)
    ensures forall i :: HasParent(b, i)
  {
    forall i: nat
      ensures HasParent(b, i)
    {
      assert HasParent(a, i);
    }
  }

  /** A switch touches nothing but states: the new current task runs, and it alone; zombies stay zombies. */
  lemma SwitchFacts(s: System)
    requires Shaped(s) && s.tasks[s.cur].pid >= -1
    ensures
      var s' := SwitchTask(s);
      && Shaped(s')
      && (forall i :: 0 <= i < NR_TASKS ==> s'.tasks[i].(state := s.tasks[i].state) == s.tasks[i])
      && s'.tasks[s'.cur].state == Running
      && (s'.cur == 0 || (Live(s.tasks[s'.cur]) && s.tasks[s'.cur].state != Zombie))
      && (forall i :: 0 <= i < NR_TASKS && i != s'.cur ==> (s'.tasks[i].state == Zombie <==> s.tasks[i].state == Zombie))
      && (forall i :: 0 <= i < NR_TASKS && i != s'.cur && s'.tasks[i].state == Running ==>
            i != s.cur && s.tasks[i].state == Running)
      && (forall i :: 0 <= i < NR_TASKS && s.tasks[i].state in {Running, Waiting} ==> s'.tasks[i].state in {Running, Waiting})
      && (forall i :: 0 <= i < NR_TASKS && s'.tasks[i].state == Blocked ==> s.tasks[i].state == Blocked)
  {
  }

  lemma SwitchKeeps(s: System)
    requires Sound(s)
    ensures Safe(SwitchTask(s)) && SwitchTask(s).tasks[SwitchTask(s).cur].state == Running
  {
    var s' := SwitchTask(s);
    SwitchFacts(s);
    hide SwitchTask;
    var rank :| Ranked(s.tasks, rank);
    SameRanks(s.tasks, s'.tasks, rank);
    SameParents(s.tasks, s'.tasks);
  }

  /** The task table just before an exiting task gives up the processor. */
  function Dying(s: System, status: int): System
    requires Shaped(s)
  {
    Kill(Bury(s, status), Bury(s, status).tasks[s.cur].parent, SIGCHLD)
  }

  lemma DyingFacts(s: System, status: int)
    requires Shaped(s)
    ensures
      var k := Dying(s, status);
      && Shaped(k) && k.cur == s.cur && k.tasks[s.cur].state == Zombie
      && (forall i :: 0 <= i < NR_TASKS ==>
            k.tasks[i].pid == s.tasks[i].pid && k.tasks[i].pgrp == s.tasks[i].pgrp && s.tasks[i].signals <= k.tasks[i].signals)
      && (forall i :: 0 <= i < NR_TASKS && i != s.cur ==> k.tasks[i].state == s.tasks[i].state)
      && (forall i :: 0 <= i < NR_TASKS && Live(s.tasks[i]) ==>
            k.tasks[i].parent == if s.tasks[i].parent == s.tasks[s.cur].pid then 1 else s.tasks[i].parent)
  {
  }

  lemma DyingKeeps(s: System, status: int)
    requires Safe(s) && s.cur >= 2
    ensures Sound(Dying(s, status))
  {
    var k := Dying(s, status);
    DyingFacts(s, status);
    hide Dying;
    var rank :| Ranked(s.tasks, rank);
    SameRanks(s.tasks, k.tasks, rank);
    forall i: nat
      ensures HasParent(k.tasks, i)
    {
      assert HasParent(s.tasks, i);
    }
  }

  lemma ExitKeeps(s: System, status: int)
    requires Safe(s) && s.cur >= 2
    ensures Safe(Exit(s, status)) && Exit(s, status).tasks[s.cur].state == Zombie
    ensures Exit(s, status).tasks[Exit(s, status).cur].state == Running
  {
    DyingKeeps(s, status);
    DyingFacts(s, status);
    SwitchFacts(Dying(s, status));
    SwitchKeeps(Dying(s, status));
  }

  lemma ForkKeeps(s: System)
    requires Safe(s) && s.tasks[s.cur].state == Running
    ensures Safe(Fork(s))
  {
    var i := FreeSlot(s.tasks, 0);
    if i < NR_TASKS {
      var rank :| Ranked(s.tasks, rank);
      var s' := Fork(s);
      var rank' := if i == 1 then rank else rank[i := rank[s.cur] + 2];
      forall j: nat
        ensures BelowParent(s'.tasks, rank', j) && HasParent(s'.tasks, j)
      {
        assert BelowParent(s.tasks, rank, j) && HasParent(s.tasks, j);
      }
      assert Ranked(s'.tasks, rank');
    }
  }

  lemma ReapKeeps(s: System, pid: int)
    requires Safe(s) && (0 < pid < NR_TASKS ==> s.tasks[pid].state == Zombie)
    ensures Safe(Reap(s, pid))
  {
    var s' := Reap(s, pid);
    var rank :| Ranked(s.tasks, rank);
    SameRanks(s.tasks, s'.tasks, rank);
    forall i: nat
      ensures HasParent(s'.tasks, i)
    {
      assert HasParent(s.tasks, i);
    }
  }

  lemma ApplyKeeps(s: System, op: Op)
    requires Safe(s) && Enabled(s, op)
    ensures Safe(Apply(s, op))
    ensures op.Switch? || op.Leave? ==> Apply(s, op).tasks[Apply(s, op).cur].state == Running
  {
    match op
    case Switch => SwitchKeeps(s);
    case Leave(status) => ExitKeeps(s, status);
    case Spawn => ForkKeeps(s);
    case Wait(pid) => ReapKeeps(s, pid);
    case _ =>
      var rank :| Ranked(s.tasks, rank);
      SameRanks(s.tasks, Apply(s, op).tasks, rank);
      SameParents(s.tasks, Apply(s, op).tasks);
  }

  ghost predicate Runs(s: System, ops: seq<Op>, s': System)
    decreases |ops|
  {
    if ops == [] then s == s'
    else Safe(s) && Enabled(s, ops[0]) && Runs(Apply(s, ops[0]), ops[1..], s')
  }

  lemma {:induction false} RunsKeepTheTableSafe(s: System, ops: seq<Op>, s': System)
    requires Safe(s) && Runs(s, ops, s')
    ensures Safe(s')
    decreases |ops|
  {
    if ops != [] {
      ApplyKeeps(s, ops[0]);
      RunsKeepTheTableSafe(Apply(s, ops[0]), ops[1..], s');
    }
  }

  /** n parent links lead from task i to task 0. */
  ghost predicate Descends(tasks: seq<Task>, i: int, n: nat)
    requires |tasks| == NR_TASKS
    decreases n
  {
    0 <= i < NR_TASKS && Live(tasks[i]) && if i == 0 then n == 0 else n > 0 && Descends(tasks, tasks[i].parent, n - 1)
  }

  lemma {:induction false} ParentsLeadToTheRoot(s: System, rank: seq<nat>, i: nat) returns (n: nat)
    requires Safe(s) && Ranked(s.tasks, rank) && i < NR_TASKS && Live(s.tasks[i])
    ensures n <= rank[i] && Descends(s.tasks, i, n)
    decreases rank[i]
  {
    if i == 0 {
      n := 0;
    } else {
      assert BelowParent(s.tasks, rank, i) && HasParent(s.tasks, i);
      n := ParentsLeadToTheRoot(s, rank, s.tasks[i].parent);
      n := n + 1;
    }
  }

  /** Parent links form a tree with task 0 at its root and no zombie or reaped task inside it. */
  lemma EveryTaskDescendsFromZero(s: System, i: nat)
    requires Safe(s) && i < NR_TASKS && Live(s.tasks[i])
    ensures exists n :: Descends(s.tasks, i, n)
  {
    var rank :| Ranked(s.tasks, rank);
    var n := ParentsLeadToTheRoot(s, rank, i);
  }

  /** No step of the run forks into slot i. */
  ghost predicate NeverReused(s: System, ops: seq<Op>, i: nat)
    requires Safe(s)
    decreases |ops|
  {
    ops == [] ||
    (Enabled(s, ops[0]) && !(ops[0].Spawn? && FreeSlot(s.tasks, 0) == i) &&
     Safe(Apply(s, ops[0])) && NeverReused(Apply(s, ops[0]), ops[1..], i))
  }

  lemma {:induction false} ZombiesNeverRunAgain(s: System, ops: seq<Op>, s': System, i: nat)
    requires Runs(s, ops, s') && Safe(s) && i < NR_TASKS && s.tasks[i].state == Zombie && NeverReused(s, ops, i)
    ensures Shaped(s') && s'.tasks[i].state == Zombie && s'.cur != i
    decreases |ops|
  {
    if ops == [] {
    } else {
      StaysZombie(s, ops[0], i);
      ApplyKeeps(s, ops[0]);
      ZombiesNeverRunAgain(Apply(s, ops[0]), ops[1..], s', i);
    }
  }

  lemma StaysZombie(s: System, op: Op, i: nat)
    requires Safe(s) && Enabled(s, op) && i < NR_TASKS && s.tasks[i].state == Zombie
    requires !(op.Spawn? && FreeSlot(s.tasks, 0) == i)
    ensures Apply(s, op).tasks[i].state == Zombie
  {
    match op
    case Switch => SwitchFacts(s);
    case Leave(status) =>
      DyingFacts(s, status);
      SwitchFacts(Dying(s, status));
    case _ =>
  }

  // ---- Bounded waiting ----------------------------------------------------

  function Distance(t: nat, p: nat): nat
  {
    (t - p + NR_TASKS) % NR_TASKS
  }

  /** Waiting, or blocked with a signal pending. */
  ghost predicate Ready(s: System, t: nat)
  {
    && t < |s.tasks| && Live(s.tasks[t])
    && (s.tasks[t].state == Waiting || (s.tasks[t].state == Blocked && s.tasks[t].signals != {}))
  }

  lemma SwitchComesCloser(s: System, t: nat)
    requires Shaped(s) && s.tasks[s.cur].pid == s.cur && Ready(s, t) && t != s.cur
    ensures
      var s' := SwitchTask(s);
      Distance(t, s'.cur) < Distance(t, s.cur) && (s'.cur == t || Ready(s', t))
  {
    var parked := if s.tasks[s.cur].state == Running then SetState(s.tasks, s.cur, Waiting) else s.tasks;
    var woken := WakeAll(parked);
    var next := Pick(woken, s.cur + 1);
    assert Live(woken[t]) && woken[t].state == Waiting;
  }

  /** Whatever the current task does, a ready task stays ready, and comes strictly closer at each switch. */
  lemma ReadyComesCloser(s: System, op: Op, t: nat)
    requires Safe(s) && Enabled(s, op) && Ready(s, t) && t != s.cur
    ensures
      var s' := Apply(s, op);
      && (s'.cur == t || Ready(s', t))
      && if op.Switch? || op.Leave? then Distance(t, s'.cur) < Distance(t, s.cur) else s'.cur == s.cur
  {
    match op
    case Switch => SwitchComesCloser(s, t);
    case Leave(status) =>
      var k := Dying(s, status);
      DyingFacts(s, status);
      assert Ready(k, t);
      SwitchComesCloser(k, t);
    case _ =>
  }

  function Switches(ops: seq<Op>): nat
  {
    if ops == [] then 0 else (if ops[0].Switch? || ops[0].Leave? then 1 else 0) + Switches(ops[1..])
  }

  /** Task t is not the current one in any state of the run. */
  ghost predicate NeverRuns(s: System, ops: seq<Op>, t: nat)
    requires Safe(s)
    decreases |ops|
  {
    s.cur != t &&
    (ops == [] ||
     (Enabled(s, ops[0]) && Safe(Apply(s, ops[0])) && NeverRuns(Apply(s, ops[0]), ops[1..], t)))
  }

  /** A ready task that has not run yet has seen fewer switches than its distance from the current task, at most 63. */
  lemma {:induction false} WaitingIsBounded(s: System, ops: seq<Op>, t: nat)
    requires Safe(s) && Ready(s, t) && NeverRuns(s, ops, t)
    ensures Switches(ops) < Distance(t, s.cur) < NR_TASKS
    decreases |ops|
  {
    if ops == [] {
    } else {
      ReadyComesCloser(s, ops[0], t);
      WaitingIsBounded(Apply(s, ops[0]), ops[1..], t);
    }
  }
}
