/**
  What becomes of the device after device_unlock (src/drivers/drivers.c): it goes from hand to hand in the order of
  the queue, and everybody in the queue gets it. Told of runs of Act, in which any task may do anything meanwhile.
 */
module LockHandOver {
  import opened Limits
  import opened Tasks
  import opened DeviceLock
  import opened LockProgress

  /** A run from l to l' in which task t takes no step of its own in the lock code. */
  ghost predicate Without(l: Lock, acts: seq<Action>, t: nat, l': Lock)
    decreases |acts|
  {
    if acts == [] then l == l'
    else
      && Inv(l) && Allowed(l, acts[0]) && !(acts[0].Advance? && l.sys.cur == t)
      && Without(Act(l, acts[0]), acts[1..], t, l')
  }

  // ---- One step at a time -------------------------------------------------

  /** A task that asks for the device stands at the end of the queue. */
  lemma AskingQueues(l: Lock)
    requires Inv(l) && Allowed(l, Advance) && l.place[l.sys.cur] == Outside
    ensures var l' := Act(l, Advance);
            l'.queue == l.queue + [l.sys.cur] && l'.requested == l.requested + [l.sys.cur] && l'.granted == l.granted && l'.sys == l.sys
  {
  }

  /** The holder's next step gives the device up: it is no longer inside, and the next in line heads the queue. */
  lemma UnlockPasses(l: Lock)
    requires Inv(l) && Allowed(l, Advance) && l.place[l.sys.cur] == Inside
    ensures var l' := Act(l, Advance);
            && l.queue != [] && l.queue[0] == l.sys.cur && l'.queue == l.queue[1..] && l'.sys == l.sys
            && l'.place == l.place[l.sys.cur := AtKill] && l'.granted == l.granted && l'.requested == l.requested
  {
    assert PlaceOk(l, l.sys.cur);
  }

  /** The step after that leaves the lock code, with SIGCONT pending for whoever heads the queue by then. */
  lemma UnlockWakes(l: Lock)
    requires Inv(l) && Allowed(l, Advance) && l.place[l.sys.cur] == AtKill
    ensures var l' := Act(l, Advance);
            && l'.queue == l.queue && l'.place == l.place[l.sys.cur := Outside] && l'.granted == l.granted && l'.requested == l.requested
            && |l'.sys.tasks| == NR_TASKS && (l.queue != [] ==> l.queue[0] < NR_TASKS && SIGCONT in l'.sys.tasks[l.queue[0]].signals)
  {
    if l.queue != [] {
      KillReachesHead(l);
    }
  }

  /** What one action can do to the lock: append to the queue, grant to its head, or take its head off. */
  lemma OneAction(l: Lock, a: Action)
    requires Inv(l) && Allowed(l, a)
    ensures var (l', me) := (Act(l, a), l.sys.cur);
            && Shaped(l.sys) && |l'.place| == |l.place| == NR_TASKS
            && (forall i :: 0 <= i < NR_TASKS && (i != me || !a.Advance?) ==> l'.place[i] == l.place[i])
            && (if a.Advance? && l.place[me] == Inside then l.queue != [] && l'.queue == l.queue[1..] && l'.place[me] == AtKill
                else l.queue <= l'.queue)
            && (if a.Advance? && l.place[me] == AtTest && l.queue != [] && l.queue[0] == me
                then l'.granted == l.granted + [me] && l'.place[me] == Inside
                else l'.granted == l.granted && (l'.place[me] == Inside ==> l.place[me] == Inside))
  {
    assert PlaceOk(l, l.sys.cur);
  }

  // ---- Hand-over ----------------------------------------------------------

  /** Until the holder takes its next step, it stays inside; the queue only grows at its end, and nobody is let in. */
  lemma {:induction false} HolderStays(l: Lock, acts: seq<Action>, t: nat, l': Lock)
    requires Inv(l) && t < NR_TASKS && l.place[t] == Inside && Without(l, acts, t, l')
    ensures Inv(l') && l'.place[t] == Inside && l.queue <= l'.queue && l'.granted == l.granted
    decreases |acts|
  {
    hide Act, Allowed;
    if acts != [] {
      OneAction(l, acts[0]);
      ActKeeps(l, acts[0]);
      MutualExclusion(l, t, l.sys.cur);
      HolderStays(Act(l, acts[0]), acts[1..], t, l');
    }
  }

  /** Between its two steps a task that unlocks stays where it is, whatever the others do with the device. */
  lemma {:induction false} KillerStays(l: Lock, acts: seq<Action>, t: nat, l': Lock)
    requires Inv(l) && t < NR_TASKS && l.place[t] == AtKill && Without(l, acts, t, l')
    ensures Inv(l') && l'.place[t] == AtKill
    decreases |acts|
  {
    hide Act, Allowed;
    if acts != [] {
      OneAction(l, acts[0]);
      ActKeeps(l, acts[0]);
      KillerStays(Act(l, acts[0]), acts[1..], t, l');
    }
  }

  /**
    device_unlock: task t holds the device, and rest waits behind it. After its next step, at l2, it does not hold it,
    and rest heads the queue. After the step that follows, at l4, it has left, and whoever heads the queue then has
    SIGCONT pending.
   */
  lemma HandOver(l: Lock, t: nat, rest: seq<nat>, acts: seq<Action>, l1: Lock, l2: Lock, acts': seq<Action>, l3: Lock, l4: Lock)
    requires Inv(l) && t < NR_TASKS && l.place[t] == Inside && l.queue == [t] + rest
    requires Without(l, acts, t, l1) && l1.sys.cur == t && Inv(l1) && Allowed(l1, Advance) && l2 == Act(l1, Advance)
    requires Without(l2, acts', t, l3) && l3.sys.cur == t && Inv(l3) && Allowed(l3, Advance) && l4 == Act(l3, Advance)
    ensures Inv(l2) && l2.place[t] == AtKill && rest <= l2.queue && t !in l2.queue && l2.granted == l.granted
    ensures Inv(l4) && l4.place[t] == Outside
    ensures l4.queue != [] ==> l4.queue[0] < NR_TASKS && SIGCONT in l4.sys.tasks[l4.queue[0]].signals
  {
    hide Act, Allowed, Safe;
    HolderStays(l, acts, t, l1);
    UnlockPasses(l1);
    ActKeeps(l1, Advance);
    assert l1.queue[1..][..|rest|] == rest;
    assert PlaceOk(l2, t);
    KillerStays(l2, acts', t, l3);
    UnlockWakes(l3);
    ActKeeps(l3, Advance);
  }

  // ---- The next in line ---------------------------------------------------

  /** A run in which the timer leaves every dispatched task one step. */
  ghost predicate FairRun(l: Lock, acts: seq<Action>, l': Lock)
    decreases |acts|
  {
    if acts == [] then l == l'
    else Inv(l) && Allowed(l, acts[0]) && Fair(l, acts[0]) && FairRun(Act(l, acts[0]), acts[1..], l')
  }

  ghost function Switched(l: Lock, acts: seq<Action>, l': Lock): nat
    requires FairRun(l, acts, l')
    decreases |acts|
  {
    if acts == [] then 0
    else (if EndsInSwitch(l, acts[0]) then 1 else 0) + Switched(Act(l, acts[0]), acts[1..], l')
  }

  lemma {:induction false} GrantsAddUp(l: Lock, acts: seq<Action>, l': Lock)
    requires Inv(l) && FairRun(l, acts, l')
    ensures Inv(l') && l.granted <= l'.granted
    decreases |acts|
  {
    hide Act, Allowed;
    if acts != [] {
      OneAction(l, acts[0]);
      ActKeeps(l, acts[0]);
      GrantsAddUp(Act(l, acts[0]), acts[1..], l');
    }
  }

  /** Until the head of the queue has the device, nobody gets it. */
  lemma {:induction false} HeadIsNext(l: Lock, acts: seq<Action>, l': Lock, h: nat)
    requires Inv(l) && FairRun(l, acts, l') && l.queue != [] && l.queue[0] == h < NR_TASKS && l.place[h] != Inside
    ensures Inv(l') && |l'.place| == NR_TASKS
    ensures (l'.granted == l.granted && l'.place[h] != Inside && StaysOut(l, acts, h) && SwitchCount(l, acts, h) == Switched(l, acts, l'))
         || l.granted + [h] <= l'.granted
    decreases |acts|
  {
    hide Act, Allowed;
    if acts != [] {
      var l1 := Act(l, acts[0]);
      OneAction(l, acts[0]);
      ActKeeps(l, acts[0]);
      NobodyInside(l, l.sys.cur);
      if l1.place[h] == Inside {
        GrantsAddUp(l1, acts[1..], l');
      } else {
        HeadIsNext(l1, acts[1..], l', h);
      }
    }
  }

  lemma NobodyInside(l: Lock, i: nat)
    requires Inv(l) && l.queue != [] && l.queue[0] < NR_TASKS && l.place[l.queue[0]] != Inside && i < NR_TASKS
    ensures l.place[i] != Inside
  {
    assert PlaceOk(l, i);
  }

  /** After an unlock the next in line is the next to get the device, within 320 switches. */
  lemma NextInLineIsNext(l: Lock, acts: seq<Action>, l': Lock)
    requires Inv(l) && FairRun(l, acts, l') && l.queue != [] && l.queue[0] < NR_TASKS && l.place[l.queue[0]] != Inside
    ensures l'.granted == l.granted || l.granted + [l.queue[0]] <= l'.granted
    ensures Switched(l, acts, l') > 320 ==> l.granted + [l.queue[0]] <= l'.granted
  {
    HeadIsNext(l, acts, l', l.queue[0]);
    if !(l.granted + [l.queue[0]] <= l'.granted) {
      HeadGetsTheDevice(l, acts);
    }
  }

  // ---- Everybody in the queue ---------------------------------------------

  ghost predicate HasHolder(l: Lock)
  {
    l.queue != [] && l.queue[0] < |l.place| && l.place[l.queue[0]] == Inside
  }

  /** How many switches the holder may still see before its next step: k when it has just got the device. */
  ghost function Patience(l: Lock, a: Action, k: nat, left: nat): int
    requires Inv(l) && Allowed(l, a)
  {
    if HasHolder(l) && HasHolder(Act(l, a)) then if EndsInSwitch(l, a) then left - 1 else left else k
  }

  /** In the run nobody holds the device for more than k switches; the holder at its start, for no more than left. */
  ghost predicate Prompt(l: Lock, acts: seq<Action>, k: nat, left: nat)
    decreases |acts|
  {
    acts == [] ||
    (Inv(l) && Allowed(l, acts[0]) && Patience(l, acts[0], k, left) >= 0
     && Prompt(Act(l, acts[0]), acts[1..], k, Patience(l, acts[0], k, left)))
  }

  /** i turns, each of 320 switches to get the device and k to give it back. */
  function Turns(i: nat, k: nat): nat
  {
    if i == 0 then 0 else 320 + k + Turns(i - 1, k)
  }

  lemma {:induction false} TurnsMultiply(i: nat, k: nat)
    ensures Turns(i, k) == i * (320 + k)
  {
    if i > 0 {
      TurnsMultiply(i - 1, k);
    }
  }

  /** How long task t at place i of the queue may still have to wait. */
  ghost function Budget(l: Lock, i: nat, actor: nat, k: nat, left: nat): nat
    requires |l.sys.tasks| == |l.place| == NR_TASKS && l.queue != [] && l.queue[0] < NR_TASKS && (HasHolder(l) ==> i > 0)
  {
    if HasHolder(l) then left + 320 + Turns(i - 1, k) else Measure(l, l.queue[0], actor) + Turns(i, k)
  }

  /** What the budget of task t, at place i, is a bound for. */
  ghost predicate InLine(l: Lock, t: nat, i: nat, actor: nat, k: nat, left: nat)
  {
    && Inv(l) && i < |l.queue| && l.queue[i] == t && left <= k && (HasHolder(l) ==> i > 0)
    && (!HasHolder(l) ==> Served(l, l.queue[0], actor))
  }

  /** While the head waits: nothing happens to the line, or the head gets the device. */
  lemma HeadWaits(l: Lock, a: Action, t: nat, i: nat, actor: nat, k: nat, left: nat)
    requires InLine(l, t, i, actor, k, left) && !HasHolder(l) && Allowed(l, a) && Fair(l, a)
    requires Inv(Act(l, a)) && t < NR_TASKS && Act(l, a).place[t] != Inside
    ensures var l1 := Act(l, a);
            InLine(l1, t, i, actor, k, k)
            && Budget(l1, i, actor, k, k) + (if EndsInSwitch(l, a) then 1 else 0) <= Budget(l, i, actor, k, left)
  {
    var h, l1 := l.queue[0], Act(l, a);
    OneAction(l, a);
    NobodyInside(l, l.sys.cur);
    if l1.place[h] != Inside {
      ActFalls(l, a, h, actor);
    }
    hide Act, Allowed, Inv, Served, Measure;
    assert l1.queue[0] == h && l1.queue[i] == t;
  }

  /** While somebody holds the device: it gives it back, or nothing happens to the line. */
  lemma HolderWorks(l: Lock, a: Action, t: nat, i: nat, actor: nat, k: nat, left: nat) returns (i': nat, actor': nat)
    requires InLine(l, t, i, actor, k, left) && HasHolder(l) && Allowed(l, a) && Fair(l, a)
    requires Inv(Act(l, a)) && Patience(l, a, k, left) >= 0
    ensures var (l1, left') := (Act(l, a), Patience(l, a, k, left));
            InLine(l1, t, i', actor', k, left')
            && Budget(l1, i', actor', k, left') + (if EndsInSwitch(l, a) then 1 else 0) <= Budget(l, i, actor, k, left)
  {
    var h, l1 := l.queue[0], Act(l, a);
    OneAction(l, a);
    MutualExclusion(l, h, l.sys.cur);
    i', actor' := i, actor;
    if a.Advance? && l.sys.cur == h {
      i' := i - 1;
      assert l1.queue[0] == l.queue[1] != h && l1.queue[i'] == t;
      MutualExclusion(l, h, l.queue[1]);
      actor' := SomeoneServes(l1);
      MeasureIsBounded(l1, l1.queue[0], actor');
    } else {
      assert l1.queue[0] == h && l1.queue[i] == t;
    }
  }

  lemma {:induction false} LineMoves(l: Lock, acts: seq<Action>, t: nat, i: nat, actor: nat, k: nat, left: nat)
    requires StaysOut(l, acts, t) && Prompt(l, acts, k, left) && InLine(l, t, i, actor, k, left)
    ensures SwitchCount(l, acts, t) <= Budget(l, i, actor, k, left)
    decreases |acts|
  {
    hide Act, Allowed, InLine, Budget, Patience;
    if acts != [] {
      if HasHolder(l) {
        var i', actor' := HolderWorks(l, acts[0], t, i, actor, k, left);
        LineMoves(Act(l, acts[0]), acts[1..], t, i', actor', k, Patience(l, acts[0], k, left));
      } else {
        HeadWaits(l, acts[0], t, i, actor, k, left);
        NoHolderYet(l, acts[0], k, left);
        LineMoves(Act(l, acts[0]), acts[1..], t, i, actor, k, k);
      }
    }
  }

  lemma NoHolderYet(l: Lock, a: Action, k: nat, left: nat)
    requires Inv(l) && Allowed(l, a) && !HasHolder(l)
    ensures Patience(l, a, k, left) == k
  {
  }

  /**
    Whatever else happens, a task at place i of the queue has the device within (i + 1) * (320 + k) switches, if every
    holder takes its step within k switches and the run is fair.
   */
  lemma EverybodyIsServed(l: Lock, acts: seq<Action>, i: nat, k: nat)
    requires Inv(l) && i < |l.queue| && StaysOut(l, acts, l.queue[i]) && Prompt(l, acts, k, k)
    ensures SwitchCount(l, acts, l.queue[i]) <= (i + 1) * (320 + k)
  {
    var actor := 0;
    if !HasHolder(l) {
      actor := SomeoneServes(l);
      MeasureIsBounded(l, l.queue[0], actor);
    }
    LineMoves(l, acts, l.queue[i], i, actor, k, k);
    TurnsMultiply(i + 1, k);
    hide SwitchCount, Measure;
  }

  // ---- The scheduler underneath -------------------------------------------

  /** The system calls and switches that an action is for the scheduler. */
  function Calls(l: Lock, a: Action): seq<Op>
    requires Shaped(l.sys) && |l.place| == NR_TASKS
  {
    match a
    case Timer => [Switch]
    case Other(op) => [op]
    case Advance =>
      match l.place[l.sys.cur]
      case AtPause => [Pausing]
      case AtSwitch => [Switch]
      case AtKill => if l.queue != [] then [Signal(l.queue[0], SIGCONT)] else []
      case _ => []
  }

  ghost function AllCalls(l: Lock, acts: seq<Action>, l': Lock): seq<Op>
    requires Inv(l) && DeviceLock.Runs(l, acts, l')
    decreases |acts|
  {
    if acts == [] then []
    else
      ActKeeps(l, acts[0]);
      Calls(l, acts[0]) + AllCalls(Act(l, acts[0]), acts[1..], l')
  }

  lemma ActIsACall(l: Lock, a: Action)
    requires Inv(l) && Allowed(l, a)
    ensures Tasks.Runs(l.sys, Calls(l, a), Act(l, a).sys)
  {
    assert PlaceOk(l, l.sys.cur);
    if l.queue != [] {
      assert PlaceOk(l, l.queue[0]);
    }
    hide Safe, Sound;
    if Calls(l, a) != [] {
      assert Calls(l, a)[1..] == [];
    }
  }

  lemma {:induction false} RunsChain(s: System, a: seq<Op>, s1: System, b: seq<Op>, s': System)
    requires Tasks.Runs(s, a, s1) && Tasks.Runs(s1, b, s')
    ensures Tasks.Runs(s, a + b, s')
    decreases |a|
  {
    hide Apply, Tasks.Enabled;
    if a == [] {
      assert a + b == b;
    } else {
      assert (a + b)[1..] == a[1..] + b;
      RunsChain(Apply(s, a[0]), a[1..], s1, b, s');
    }
  }

  /** A run of the lock is a run of the scheduler: everything said of those holds of tasks that share a device. */
  lemma {:induction false} LockRunsAreTaskRuns(l: Lock, acts: seq<Action>, l': Lock)
    requires Inv(l) && DeviceLock.Runs(l, acts, l')
    ensures Tasks.Runs(l.sys, AllCalls(l, acts, l'), l'.sys)
    decreases |acts|
  {
    hide Act, Allowed, Calls;
    if acts != [] {
      var l1 := Act(l, acts[0]);
      ActKeeps(l, acts[0]);
      ActIsACall(l, acts[0]);
      LockRunsAreTaskRuns(l1, acts[1..], l');
      RunsChain(l.sys, Calls(l, acts[0]), l1.sys, AllCalls(l1, acts[1..], l'), l'.sys);
    }
  }
}
