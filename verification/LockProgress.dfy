/**
  The head of a device queue gets the device within a bounded number of task switches, in every run that is
  fair in one respect: the timer leaves a task that was just dispatched the time for one step.
 */
module LockProgress {
  import opened Limits
  import opened Tasks
  import opened DeviceLock

  /** Task h heads the queue but has not got the device yet. */
  ghost predicate Heads(l: Lock, h: nat)
  {
    && Shaped(l.sys) && |l.place| == NR_TASKS && h < NR_TASKS && l.queue != [] && l.queue[0] == h
    && l.place[h] in {AtTest, AtPause, AtSwitch}
    && Live(l.sys.tasks[h]) && l.sys.tasks[h].state != Zombie
    && (h != l.sys.cur ==> l.sys.tasks[h].state != Running)
  }

  /** h sleeps, or is about to, and has no signal pending. */
  predicate NeedsKill(l: Lock, h: nat)
    requires |l.sys.tasks| == |l.place| == NR_TASKS && h < NR_TASKS
  {
    l.sys.tasks[h].signals == {} && !(l.place[h] == AtTest && l.sys.tasks[h].state != Blocked)
  }

  /** If h needs a kill, then task k is about to send it. */
  ghost predicate Served(l: Lock, h: nat, k: nat)
  {
    && Heads(l, h)
    && (NeedsKill(l, h) ==>
          && k < NR_TASKS && l.place[k] == AtKill && Live(l.sys.tasks[k]) && l.sys.tasks[k].pid == k
          && l.sys.tasks[k].state == if k == l.sys.cur then Running else Waiting)
  }

  /** The task that has to act next, and how many steps are left to it and those after it. */
  function Actor(l: Lock, h: nat, k: nat): nat
    requires |l.sys.tasks| == |l.place| == NR_TASKS && h < NR_TASKS
  {
    if NeedsKill(l, h) then k else h
  }

  function Level(l: Lock, h: nat): nat
    requires |l.sys.tasks| == |l.place| == NR_TASKS && h < NR_TASKS
  {
    if NeedsKill(l, h) then 4
    else match l.place[h]
      case AtPause => 3
      case AtSwitch => 2
      case _ => 1
  }

  function Measure(l: Lock, h: nat, k: nat): nat
    requires |l.sys.tasks| == |l.place| == NR_TASKS && h < NR_TASKS
  {
    NR_TASKS * Level(l, h) +
    if l.sys.cur != Actor(l, h, k) then Distance(Actor(l, h, k), l.sys.cur)
    else if l.moved then NR_TASKS
    else 0
  }

  lemma MeasureIsBounded(l: Lock, h: nat, k: nat)
    requires |l.sys.tasks| == |l.place| == NR_TASKS && h < NR_TASKS
    ensures Measure(l, h, k) <= 320
  {
  }

  lemma DispatchFalls(l: Lock, h: nat, k: nat)
    requires Served(l, h, k) && l.sys.tasks[l.sys.cur].pid == l.sys.cur && l.moved
    ensures Served(Dispatch(l), h, k) && Measure(Dispatch(l), h, k) < Measure(l, h, k)
  {
    var l', r := Dispatch(l), Actor(l, h, k);
    SwitchFacts(l.sys);
    if r != l.sys.cur {
      SwitchComesCloser(l.sys, r);
    }
  }

  /** An action without the switch that may end it. */
  function Unswitched(l: Lock, a: Action): Lock
    requires Shaped(l.sys) && |l.place| == NR_TASKS && l.sys.tasks[l.sys.cur].pid >= 0
  {
    match a
    case Advance => if l.place[l.sys.cur] == AtSwitch then Goto(l, AtTest) else Step(l)
    case Timer => l
    case Other(op) => if op.Leave? then l.(sys := Dying(l.sys, op.status), moved := true) else Act(l, a)
  }

  predicate EndsInSwitch(l: Lock, a: Action)
    requires Shaped(l.sys) && |l.place| == NR_TASKS
  {
    a.Timer? || (a.Advance? && l.place[l.sys.cur] == AtSwitch) || (a.Other? && a.op.Leave?)
  }

  lemma AdvanceHolds(l: Lock, h: nat, k: nat)
    requires Inv(l) && Served(l, h, k) && Allowed(l, Advance)
    ensures
      var l1 := Unswitched(l, Advance);
      l1.sys.cur == l.sys.cur && l1.moved && l1.sys.tasks[l1.sys.cur].pid == l1.sys.cur
      && (l1.place[h] != Inside ==> Served(l1, h, k) && Measure(l1, h, k) <= Measure(l, h, k))
  {
    assert PlaceOk(l, l.sys.cur) && PlaceOk(l, h);
    if l.place[l.sys.cur] == AtKill {
      KillReachesHead(l);
    }
  }

  lemma OtherHolds(l: Lock, op: Op, h: nat, k: nat)
    requires Inv(l) && Served(l, h, k) && Allowed(l, Other(op))
    ensures
      var l1 := Unswitched(l, Other(op));
      l1.sys.cur == l.sys.cur && l1.moved && l1.sys.tasks[l1.sys.cur].pid == l1.sys.cur
      && Served(l1, h, k) && Measure(l1, h, k) <= Measure(l, h, k)
  {
    assert PlaceOk(l, l.sys.cur) && PlaceOk(l, h);
    if op.Leave? {
      DyingFacts(l.sys, op.status);
    }
  }

  lemma ActIsUnswitched(l: Lock, a: Action)
    requires Inv(l) && Allowed(l, a)
    ensures Shaped(Unswitched(l, a).sys) && Unswitched(l, a).sys.tasks[Unswitched(l, a).sys.cur].pid >= -1
    ensures Act(l, a) == if EndsInSwitch(l, a) then Dispatch(Unswitched(l, a)) else Unswitched(l, a)
  {
    if a.Other? && a.op.Leave? {
      DyingFacts(l.sys, a.op.status);
    }
  }

  /** The timer leaves a dispatched task one step. */
  predicate Fair(l: Lock, a: Action)
  {
    a.Timer? ==> l.moved
  }

  /** Some fair action is always possible: a run never gets stuck. */
  lemma SomeActionIsFair(l: Lock)
    requires Inv(l)
    ensures Allowed(l, Advance) || (Allowed(l, Timer) && Fair(l, Timer))
  {
    assert PlaceOk(l, l.sys.cur);
  }

  lemma UnswitchedHolds(l: Lock, a: Action, h: nat, k: nat)
    requires Inv(l) && Served(l, h, k) && Allowed(l, a) && Fair(l, a) && Act(l, a).place[h] != Inside
    ensures
      var l1 := Unswitched(l, a);
      l1.sys.cur == l.sys.cur && l1.moved && Shaped(l1.sys) && l1.sys.tasks[l1.sys.cur].pid == l1.sys.cur
      && Served(l1, h, k) && Measure(l1, h, k) <= Measure(l, h, k)
  {
    ActIsUnswitched(l, a);
    match a
    case Advance => AdvanceHolds(l, h, k);
    case Timer =>
    case Other(op) => OtherHolds(l, op, h, k);
  }

  lemma ActFalls(l: Lock, a: Action, h: nat, k: nat)
    requires Inv(l) && Served(l, h, k) && Allowed(l, a) && Fair(l, a) && Act(l, a).place[h] != Inside
    ensures
      var l' := Act(l, a);
      && Served(l', h, k)
      && Measure(l', h, k) + (if EndsInSwitch(l, a) then 1 else 0) <= Measure(l, h, k)
  {
    UnswitchedHolds(l, a, h, k);
    ActIsUnswitched(l, a);
    hide Act, Unswitched, Dispatch, Inv, Served, Measure;
    if EndsInSwitch(l, a) {
      DispatchFalls(Unswitched(l, a), h, k);
    }
  }

  /** Task h does not get the device in any state of a fair run. */
  ghost predicate StaysOut(l: Lock, acts: seq<Action>, h: nat)
    decreases |acts|
  {
    && Inv(l) && h < NR_TASKS && l.place[h] != Inside
    && (acts == [] || (Allowed(l, acts[0]) && Fair(l, acts[0]) && StaysOut(Act(l, acts[0]), acts[1..], h)))
  }

  ghost function SwitchCount(l: Lock, acts: seq<Action>, h: nat): nat
    requires StaysOut(l, acts, h)
    decreases |acts|
  {
    if acts == [] then 0
    else (if EndsInSwitch(l, acts[0]) then 1 else 0) + SwitchCount(Act(l, acts[0]), acts[1..], h)
  }

  lemma {:induction false} SwitchesAreCounted(l: Lock, acts: seq<Action>, h: nat, k: nat)
    requires StaysOut(l, acts, h) && Served(l, h, k)
    ensures SwitchCount(l, acts, h) <= Measure(l, h, k)
    decreases |acts|
  {
    if acts != [] {
      ActFalls(l, acts[0], h, k);
      SwitchesAreCounted(Act(l, acts[0]), acts[1..], h, k);
    }
  }

  /** Somebody is about to act for the head of the queue. */
  lemma SomeoneServes(l: Lock) returns (actor: nat)
    requires Inv(l) && l.queue != [] && l.place[l.queue[0]] != Inside
    ensures Served(l, l.queue[0], actor)
  {
    var h := l.queue[0];
    assert PlaceOk(l, h);
    actor := if NeedsKill(l, h) then var k: nat :| k < NR_TASKS && l.place[k] == AtKill; k else 0;
    assert PlaceOk(l, actor);
  }

  /** However the tasks interleave, the head of the queue sees at most 320 switches before it has the device. */
  lemma HeadGetsTheDevice(l: Lock, acts: seq<Action>)
    requires Inv(l) && l.queue != [] && StaysOut(l, acts, l.queue[0])
    ensures SwitchCount(l, acts, l.queue[0]) <= 320
  {
    var h := l.queue[0];
    var actor := SomeoneServes(l);
    MeasureIsBounded(l, h, actor);
    SwitchesAreCounted(l, acts, h, actor);
  }

  /** Why runs have to be fair: a timer that never leaves a task a step can go on for ever, and nobody gets the device. */
  lemma {:induction false} UnfairRunsStarve(l: Lock, n: nat) returns (l': Lock)
    requires Inv(l)
    ensures DeviceLock.Runs(l, seq(n, _ => Timer), l') && Inv(l') && l'.place == l.place && l'.granted == l.granted
    decreases n
  {
    l' := l;
    if n > 0 {
      ActKeeps(l, Timer);
      l' := UnfairRunsStarve(Act(l, Timer), n - 1);
      var acts := seq(n, _ => Timer);
      assert acts[1..] == seq(n - 1, _ => Timer);
    }
  }
}
