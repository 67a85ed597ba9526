/**
  device_lock and device_unlock (src/drivers/drivers.c) over the scheduler, as steps of tasks that a timer
  may switch anywhere outside cli/sti. One device; every task has a program counter into the two routines.
 */
module DeviceLock {
  import opened Limits
  import opened Tasks

  /** Where a task is. Between AtSwitch and AtTest it may lie asleep inside switch_task. */
  datatype Place =
    | Outside    // not in the lock code
    | AtTest     // enqueued, about to compare the queue head with itself
    | AtPause    // the head was another: about to mark itself blocked
    | AtSwitch   // marked blocked, about to call switch_task
    | Inside     // past device_lock
    | AtKill     // popped itself, about to signal the new head

  /**
    requested and granted record the order in which tasks were enqueued and got past device_lock; moved says
    whether the current task has taken a step since it was dispatched.
   */
  datatype Lock = Lock(
    sys: System,
    queue: seq<nat>,
    place: seq<Place>,
    requested: seq<nat>,
    granted: seq<nat>,
    moved: bool)

  function Goto(l: Lock, place: Place): Lock
    requires l.sys.cur < |l.place|
  {
    l.(place := l.place[l.sys.cur := place], moved := true)
  }

  function Dispatch(l: Lock): Lock
    requires Shaped(l.sys) && l.sys.tasks[l.sys.cur].pid >= -1
  {
    l.(sys := SwitchTask(l.sys), moved := false)
  }

  /** The next step of the current task in the lock code; from Outside, it asks for the device. */
  function Step(l: Lock): Lock
    requires Shaped(l.sys) && |l.place| == NR_TASKS && l.sys.tasks[l.sys.cur].pid >= 0
  {
    var me := l.sys.cur;
    match l.place[me]
    case Outside => Goto(l, AtTest).(queue := l.queue + [me], requested := l.requested + [me])
    case AtTest => if l.queue != [] && l.queue[0] == me then Goto(l, Inside).(granted := l.granted + [me]) else Goto(l, AtPause)
    case AtPause => Goto(l, AtSwitch).(sys := Block(l.sys))
    case AtSwitch => Dispatch(Goto(l, AtTest))
    case Inside => if l.queue != [] && l.queue[0] == me then Goto(l, AtKill).(queue := l.queue[1..]) else Goto(l, Outside)
    case AtKill => Goto(l, Outside).(sys := if l.queue != [] then Kill(l.sys, l.queue[0], SIGCONT) else l.sys)
  }

  datatype Action =
    | Advance
    | Timer
    | Other(op: Op)

  /**
    A blocked task runs on only to call switch_task. The timer may come at any time, even before a task that
    was just dispatched has taken a step. Outside the lock code and inside the section a task may do anything
    but exit while it is queued or about to signal.
   */
  ghost predicate Allowed(l: Lock, a: Action)
    requires Shaped(l.sys) && |l.place| == NR_TASKS
  {
    match a
    case Advance => l.sys.tasks[l.sys.cur].state == Running || l.place[l.sys.cur] == AtSwitch
    case Timer => true
    case Other(op) =>
      && !op.Switch? && Enabled(l.sys, op)
      && (l.place[l.sys.cur] == Outside || (l.place[l.sys.cur] == Inside && !op.Leave? && !op.Spawn?))
  }

  function Act(l: Lock, a: Action): Lock
    requires Shaped(l.sys) && |l.place| == NR_TASKS && l.sys.tasks[l.sys.cur].pid >= 0
  {
    match a
    case Advance => Step(l)
    case Timer => Dispatch(l)
    case Other(op) => l.(sys := Apply(l.sys, op), moved := !op.Leave?)
  }

  // ---- Invariant ----------------------------------------------------------

  predicate Queued(p: Place)
  {
    p == AtTest || p == AtPause || p == AtSwitch || p == Inside
  }

  /** Some task stands between its pop and its kill. */
  ghost predicate KillUnderWay(l: Lock)
    requires |l.place| == NR_TASKS
  {
    exists k: nat :: k < NR_TASKS && l.place[k] == AtKill
  }

  ghost predicate InOrder(l: Lock)
    requires |l.place| == NR_TASKS
  {
    if l.queue != [] && l.queue[0] < NR_TASKS && l.place[l.queue[0]] == Inside
    then l.requested == l.granted + l.queue[1..]
    else l.requested == l.granted + l.queue
  }

  /** Who heads the queue without the device is about to look, has a signal pending, or will be signalled. */
  ghost predicate HeadIsServed(l: Lock)
    requires Shaped(l.sys) && |l.place| == NR_TASKS
  {
    l.queue != [] && l.queue[0] < NR_TASKS && l.place[l.queue[0]] != Inside ==>
      var h := l.queue[0];
      || (l.place[h] == AtTest && l.sys.tasks[h].state != Blocked)
      || l.sys.tasks[h].signals != {}
      || KillUnderWay(l)
  }

  ghost predicate PlaceOk(l: Lock, i: nat)
  {
    Shaped(l.sys) && |l.place| == NR_TASKS && i < NR_TASKS ==>
      && (Queued(l.place[i]) <==> i in l.queue)
      && (l.place[i] == Inside ==> l.queue[0] == i)
      && (l.place[i] != Outside ==> Live(l.sys.tasks[i]) && l.sys.tasks[i].state != Zombie)
      && (l.place[i] == AtKill ==> l.sys.tasks[i].state in {Running, Waiting})
      && (l.place[i] == AtPause ==> l.sys.tasks[i].state in {Running, Waiting})
      && (i == l.sys.cur && l.sys.tasks[i].state == Blocked ==> l.place[i] in {Outside, AtSwitch, Inside} && l.moved)
  }

  ghost predicate Inv(l: Lock)
  {
    && Safe(l.sys) && |l.place| == NR_TASKS
    && (forall a :: 0 <= a < |l.queue| ==> l.queue[a] < NR_TASKS)
    && (forall a, b :: 0 <= a < b < |l.queue| ==> l.queue[a] != l.queue[b])
    && (forall i: nat :: PlaceOk(l, i))
    && InOrder(l) && HeadIsServed(l)
  }

  // ---- What the invariant says --------------------------------------------

  /** At most one task is past device_lock, and it heads the queue. */
  lemma MutualExclusion(l: Lock, i: nat, j: nat)
    requires Inv(l) && i < NR_TASKS && j < NR_TASKS && l.place[i] == Inside
    ensures l.queue != [] && l.queue[0] == i
    ensures l.place[j] == Inside ==> i == j
  {
    assert PlaceOk(l, i) && PlaceOk(l, j);
  }

  /** Tasks get the device in the order in which they were enqueued. */
  lemma FirstComeFirstServed(l: Lock)
    requires Inv(l)
    ensures l.granted <= l.requested
  {
  }

  /** A head that sleeps without a signal has not been forgotten. */
  lemma NoWakeUpIsLost(l: Lock)
    requires Inv(l) && l.queue != []
    requires l.place[l.queue[0]] != Inside && l.sys.tasks[l.queue[0]].state == Blocked && l.sys.tasks[l.queue[0]].signals == {}
    ensures exists k: nat :: k < NR_TASKS && k != l.queue[0] && l.place[k] == AtKill
  {
    var k: nat :| k < NR_TASKS && l.place[k] == AtKill;
    assert PlaceOk(l, l.queue[0]);
  }

  /** A device nobody has asked for yet. */
  function Fresh(sys: System): Lock
  {
    Lock(sys, [], seq(NR_TASKS, _ => Outside), [], [], true)
  }

  lemma FreshDeviceIsSound(sys: System)
    requires Safe(sys) && sys.tasks[sys.cur].state == Running
    ensures Inv(Fresh(sys))
  {
  }

  // ---- Every action keeps it ----------------------------------------------

  lemma DispatchKeeps(l: Lock)
    requires Sound(l.sys) && |l.place| == NR_TASKS
    requires (forall a :: 0 <= a < |l.queue| ==> l.queue[a] < NR_TASKS) && (forall a, b :: 0 <= a < b < |l.queue| ==> l.queue[a] != l.queue[b])
    requires forall i: nat :: PlaceOk(l.(moved := true), i) || (i == l.sys.cur && l.place[i] == AtTest && i in l.queue && l.sys.tasks[i].state != Zombie)
    requires InOrder(l) && HeadIsServed(l)
    ensures Inv(Dispatch(l))
  {
    var l' := Dispatch(l);
    SwitchKeeps(l.sys);
    SwitchFacts(l.sys);
    hide SwitchTask, Safe, Sound;
    forall i: nat
      ensures PlaceOk(l', i)
    {
      assert PlaceOk(l.(moved := true), i) || (i == l.sys.cur && l.place[i] == AtTest && i in l.queue && l.sys.tasks[i].state != Zombie);
    }
  }

  lemma StillUnderWay(l: Lock, l': Lock)
    requires |l.place| == |l'.place| == NR_TASKS && l.sys.cur < NR_TASKS && l.place[l.sys.cur] != AtKill
    requires forall i :: 0 <= i < NR_TASKS && i != l.sys.cur ==> l'.place[i] == l.place[i]
    ensures KillUnderWay(l) ==> KillUnderWay(l')
  {
    if k: nat :| k < NR_TASKS && l.place[k] == AtKill {
      assert l'.place[k] == AtKill;
    }
  }

  lemma StepEnqueue(l: Lock)
    requires Inv(l) && Allowed(l, Advance) && l.place[l.sys.cur] == Outside
    ensures Inv(Step(l))
  {
    var l', me := Step(l), l.sys.cur;
    assert PlaceOk(l, me);
    StillUnderWay(l, l');
    hide Safe, Sound, KillUnderWay;
    forall i: nat
      ensures PlaceOk(l', i)
    {
      assert PlaceOk(l, i);
    }
    if l.queue != [] {
      assert PlaceOk(l, l.queue[0]);
      assert (l.queue + [me])[1..] == l.queue[1..] + [me];
    }
  }

  lemma StepTest(l: Lock)
    requires Inv(l) && Allowed(l, Advance) && l.place[l.sys.cur] == AtTest
    ensures Inv(Step(l))
  {
    var l', me := Step(l), l.sys.cur;
    assert PlaceOk(l, me) && PlaceOk(l, l.queue[0]);
    StillUnderWay(l, l');
    hide Safe, Sound, KillUnderWay;
    forall i: nat
      ensures PlaceOk(l', i)
    {
      assert PlaceOk(l, i);
    }
    assert l.queue == [l.queue[0]] + l.queue[1..];
  }

  lemma StepPause(l: Lock)
    requires Inv(l) && Allowed(l, Advance) && l.place[l.sys.cur] == AtPause
    ensures Inv(Step(l))
  {
    var l', me := Step(l), l.sys.cur;
    assert PlaceOk(l, me) && PlaceOk(l, l.queue[0]);
    ApplyKeeps(l.sys, Pausing);
    StillUnderWay(l, l');
    hide Safe, Sound, KillUnderWay;
    forall i: nat
      ensures PlaceOk(l', i)
    {
      assert PlaceOk(l, i);
    }
  }

  lemma StepInside(l: Lock)
    requires Inv(l) && Allowed(l, Advance) && l.place[l.sys.cur] == Inside
    ensures Inv(Step(l))
  {
    var l', me := Step(l), l.sys.cur;
    assert PlaceOk(l, me);
    hide Safe, Sound;
    assert l'.place[me] == AtKill && KillUnderWay(l');
    forall i: nat
      ensures PlaceOk(l', i)
    {
      assert PlaceOk(l, i);
    }
    assert l'.queue != [] ==> PlaceOk(l, l'.queue[0]);
  }

  /** The kill of device_unlock reaches the head even when that is task 0, for which it means a whole group. */
  lemma KillReachesHead(l: Lock)
    requires Inv(l) && l.queue != []
    ensures
      var s' := Kill(l.sys, l.queue[0], SIGCONT);
      && SIGCONT in s'.tasks[l.queue[0]].signals
      && Shaped(s') && s'.cur == l.sys.cur
      && forall i :: 0 <= i < NR_TASKS ==>
           s'.tasks[i].(signals := l.sys.tasks[i].signals) == l.sys.tasks[i] && l.sys.tasks[i].signals <= s'.tasks[i].signals
  {
    assert PlaceOk(l, l.queue[0]);
    assert Addressed(l.sys.tasks[l.sys.cur], l.sys.tasks[l.queue[0]], l.queue[0], l.queue[0]);
  }

  lemma StepKill(l: Lock)
    requires Inv(l) && Allowed(l, Advance) && l.place[l.sys.cur] == AtKill
    ensures Inv(Step(l))
  {
    var l', me := Step(l), l.sys.cur;
    if l.queue != [] {
      KillReachesHead(l);
      ApplyKeeps(l.sys, Signal(l.queue[0], SIGCONT));
    }
    hide Safe, Sound;
    forall i: nat
      ensures PlaceOk(l', i)
    {
      assert PlaceOk(l, i);
    }
    assert PlaceOk(l, me);
  }

  lemma StepSwitch(l: Lock)
    requires Inv(l) && Allowed(l, Advance) && l.place[l.sys.cur] == AtSwitch
    ensures Inv(Step(l))
  {
    var l1, me := Goto(l, AtTest), l.sys.cur;
    forall i: nat
      ensures PlaceOk(l1, i) || (i == me && i in l1.queue)
    {
      assert PlaceOk(l, i);
    }
    if k: nat :| k < NR_TASKS && l.place[k] == AtKill {
      assert l1.place[k] == AtKill;
    }
    DispatchKeeps(l1);
  }

  lemma OtherKeeps(l: Lock, op: Op)
    requires Inv(l) && Allowed(l, Other(op)) && !op.Leave?
    ensures Inv(Act(l, Other(op)))
  {
    var l' := Act(l, Other(op));
    ApplyKeeps(l.sys, op);
    forall i: nat
      ensures PlaceOk(l', i)
    {
      assert PlaceOk(l, i);
    }
    if l.queue != [] {
      assert PlaceOk(l, l.queue[0]);
    }
    assert KillUnderWay(l) ==> KillUnderWay(l');
  }

  lemma LeaveKeeps(l: Lock, status: int)
    requires Inv(l) && Allowed(l, Other(Leave(status)))
    ensures Inv(Act(l, Other(Leave(status))))
  {
    DyingKeeps(l.sys, status);
    DyingFacts(l.sys, status);
    hide Dying, Safe, Sound;
    var l1 := l.(sys := Dying(l.sys, status), moved := true);
    forall i: nat
      ensures PlaceOk(l1, i)
    {
      assert PlaceOk(l, i);
    }
    if l.queue != [] {
      assert PlaceOk(l, l.queue[0]);
    }
    assert KillUnderWay(l) ==> KillUnderWay(l1);
    DispatchKeeps(l1);
  }

  lemma ActKeeps(l: Lock, a: Action)
    requires Inv(l) && Allowed(l, a)
    ensures Inv(Act(l, a))
  {
    match a
    case Advance =>
      match l.place[l.sys.cur] {
        case AtSwitch => StepSwitch(l);
        case Inside => StepInside(l);
        case AtKill => StepKill(l);
        case Outside => StepEnqueue(l);
        case AtTest => StepTest(l);
        case AtPause => StepPause(l);
      }
    case Timer =>
      forall i: nat
        ensures PlaceOk(l.(moved := true), i)
      {
        assert PlaceOk(l, i);
      }
      DispatchKeeps(l);
    case Other(op) =>
      if op.Leave? {
        LeaveKeeps(l, op.status);
      } else {
        OtherKeeps(l, op);
      }
  }

  ghost predicate Runs(l: Lock, acts: seq<Action>, l': Lock)
    decreases |acts|
  {
    if acts == [] then l == l'
    else Inv(l) && Allowed(l, acts[0]) && Runs(Act(l, acts[0]), acts[1..], l')
  }

  lemma {:induction false} RunsKeepTheLock(l: Lock, acts: seq<Action>, l': Lock)
    requires Inv(l) && Runs(l, acts, l')
    ensures Inv(l')
    decreases |acts|
  {
    if acts != [] {
      ActKeeps(l, acts[0]);
      RunsKeepTheLock(Act(l, acts[0]), acts[1..], l');
    }
  }

  /** What holds of the lock in one state: one task at most has the device, and none waits for nothing. */
  ghost predicate Serves(l: Lock)
  {
    && |l.place| == |l.sys.tasks| == NR_TASKS
    && (forall i, j :: 0 <= i < j < NR_TASKS ==> !(l.place[i] == Inside && l.place[j] == Inside))
    && (forall i :: 0 <= i < NR_TASKS && l.place[i] == Inside ==> l.queue != [] && l.queue[0] == i)
    && l.granted <= l.requested
    && (l.queue != [] ==>
          var h := l.queue[0];
          && h < NR_TASKS
          && (l.place[h] == Inside || l.sys.tasks[h].state != Blocked || l.sys.tasks[h].signals != {} || KillUnderWay(l)))
  }

  lemma SoundLocksServe(l: Lock)
    requires Inv(l)
    ensures Serves(l) && (l.queue == [] ==> l.granted == l.requested)
  {
    FirstComeFirstServed(l);
    forall i, j | 0 <= i < NR_TASKS && 0 <= j < NR_TASKS && l.place[i] == Inside
      ensures l.queue != [] && l.queue[0] == i && (l.place[j] == Inside ==> i == j)
    {
      MutualExclusion(l, i, j);
    }
    hide Safe, PlaceOk;
    if l.queue != [] && l.place[l.queue[0]] != Inside && l.sys.tasks[l.queue[0]].state == Blocked && l.sys.tasks[l.queue[0]].signals == {} {
      NoWakeUpIsLost(l);
    }
  }

  /** Every state that a system with an unused device can come to. */
  lemma LockIsCorrect(sys: System, acts: seq<Action>, l': Lock)
    requires Safe(sys) && sys.tasks[sys.cur].state == Running
    requires Runs(Fresh(sys), acts, l')
    ensures Serves(l') && (l'.queue == [] ==> l'.granted == l'.requested)
  {
    hide Inv, Runs, Serves;
    FreshDeviceIsSound(sys);
    RunsKeepTheLock(Fresh(sys), acts, l');
    SoundLocksServe(l');
  }
}
