/**
  FILE objects and the descriptors that point to them (src/fs/open.c, src/fs/fcntl.c, src/kernel/task.c). All
  tasks' descriptors stand in one row, NR_OPEN to a task. A FILE is known by where it was allocated; 0 is no file.
 */
module OpenFiles {

  import opened Limits

  datatype File = File(node: nat, readable: bool, writable: bool, offset: nat, count: nat)

  /** files[f] has been released when its count is 0; addresses are not used again. */
  datatype Files = Files(slots: seq<nat>, files: seq<File>)

  function Slot(task: nat, fd: nat): nat
  {
    NR_OPEN * task + fd
  }

  /** How many descriptors of all tasks point to f. */
  function Pointing(slots: seq<nat>, f: nat): nat
  {
    multiset(slots)[f]
  }

  /** Every count is the number of descriptors, so that a FILE is released exactly when none is left. */
  ghost predicate Counted(s: Files)
  {
    && |s.slots| == NR_SLOTS && 0 < |s.files| && s.files[0].count == 0
    && (forall i :: 0 <= i < |s.slots| ==> s.slots[i] < |s.files|)
    && (forall f :: 0 < f < |s.files| ==> s.files[f].count == Pointing(s.slots, f))
  }

  /** A descriptor never leads to a FILE that was released. */
  lemma OpenMeansAlive(s: Files, i: nat)
    requires Counted(s) && i < |s.slots| && s.slots[i] != 0
    ensures s.slots[i] < |s.files| && 0 < s.files[s.slots[i]].count
  {
    assert s.slots[i] in multiset(s.slots);
  }

  // ---- Operations ---------------------------------------------------------

  function Release(f: File): File
  {
    if f.count == 0 then f else f.(count := f.count - 1)
  }

  /** sys_close on descriptor i. */
  function Close(s: Files, i: nat): Files
    requires i < |s.slots|
  {
    var f := s.slots[i];
    if f == 0 || f >= |s.files| then s else Files(s.slots[i := 0], s.files[f := Release(s.files[f])])
  }

  /** The vnode whose reference the last close gives back, 0 when the FILE lives on. */
  function Freed(s: Files, i: nat): nat
    requires i < |s.slots|
  {
    var f := s.slots[i];
    if f != 0 && f < |s.files| && s.files[f].count == 1 then s.files[f].node else 0
  }

  /** A new FILE behind descriptor i, which is free. */
  function Open(s: Files, i: nat, f: File): Files
    requires i < |s.slots|
  {
    Files(s.slots[i := |s.files|], s.files + [f.(count := 1)])
  }

  /** Descriptor j, which is free, points where i points. */
  function Share(s: Files, i: nat, j: nat): Files
    requires i < |s.slots| && j < |s.slots|
  {
    var f := s.slots[i];
    if f == 0 || f >= |s.files| then s
    else Files(s.slots[j := f], s.files[f := s.files[f].(count := s.files[f].count + 1)])
  }

  function Dup2(s: Files, i: nat, j: nat): Files
    requires i < |s.slots| && j < |s.slots|
  {
    Share(Close(s, j), i, j)
  }

  /** Descriptors n and up of the parent, shared with the child. */
  function Inherit(s: Files, parent: nat, child: nat, n: nat): (r: Files)
    requires |s.slots| == NR_SLOTS && parent < NR_TASKS && child < NR_TASKS && n <= NR_OPEN
    ensures |r.slots| == NR_SLOTS
    decreases NR_OPEN - n
  {
    if n == NR_OPEN then s else Share(Inherit(s, parent, child, n + 1), Slot(parent, n), Slot(child, n))
  }

  lemma InheritSteps(s: Files, parent: nat, child: nat, n: nat)
    requires |s.slots| == NR_SLOTS && parent < NR_TASKS && child < NR_TASKS && n <= NR_OPEN
    ensures n == NR_OPEN ==> Inherit(s, parent, child, n) == s
    ensures n < NR_OPEN ==> Inherit(s, parent, child, n) == Share(Inherit(s, parent, child, n + 1), Slot(parent, n), Slot(child, n))
  {
  }

  /** sys_exit closes descriptors n - 1 down to 0. */
  function CloseAll(s: Files, task: nat, n: nat): (r: Files)
    requires |s.slots| == NR_SLOTS && task < NR_TASKS && n <= NR_OPEN
    ensures |r.slots| == NR_SLOTS
    decreases n
  {
    if n == 0 then s else CloseAll(Close(s, Slot(task, n - 1)), task, n - 1)
  }

  lemma CloseAllSteps(s: Files, task: nat, n: nat)
    requires |s.slots| == NR_SLOTS && task < NR_TASKS && n <= NR_OPEN
    ensures n == 0 ==> CloseAll(s, task, n) == s
    ensures n > 0 ==> CloseAll(s, task, n) == CloseAll(Close(s, Slot(task, n - 1)), task, n - 1)
  {
  }

  // ---- What each operation keeps ------------------------------------------

  lemma SetSlot(slots: seq<nat>, i: nat, f: nat, g: nat)
    requires i < |slots|
    ensures Pointing(slots[i := f], g) == Pointing(slots, g) - (if slots[i] == g then 1 else 0) + (if f == g then 1 else 0)
  {
    assert slots == slots[..i] + [slots[i]] + slots[i + 1..];
    assert slots[i := f] == slots[..i] + [f] + slots[i + 1..];
  }

  lemma CloseKeeps(s: Files, i: nat)
    requires Counted(s) && i < |s.slots|
    ensures Counted(Close(s, i)) && Close(s, i).slots == s.slots[i := 0]
    ensures Freed(s, i) != 0 ==> Close(s, i).files[s.slots[i]].count == 0 && s.slots[i] !in Close(s, i).slots
  {
    var f := s.slots[i];
    if f != 0 {
      OpenMeansAlive(s, i);
      forall g | 0 < g < |s.files|
        ensures Close(s, i).files[g].count == Pointing(s.slots[i := 0], g)
      {
        SetSlot(s.slots, i, 0, g);
      }
      if f in Close(s, i).slots {
        assert f in multiset(Close(s, i).slots);
      }
    } else {
      assert s.slots[i := 0] == s.slots;
    }
  }

  lemma OpenKeeps(s: Files, i: nat, f: File)
    requires Counted(s) && i < |s.slots| && s.slots[i] == 0
    ensures Counted(Open(s, i, f)) && Open(s, i, f).slots == s.slots[i := |s.files|]
    ensures Open(s, i, f).files == s.files + [File(f.node, f.readable, f.writable, f.offset, 1)]
  {
    var s' := Open(s, i, f);
    forall g | 0 < g < |s'.files|
      ensures s'.files[g].count == Pointing(s'.slots, g)
    {
      SetSlot(s.slots, i, |s.files|, g);
      if g == |s.files| {
        NotYet(s.slots, g);
      }
    }
  }

  lemma NotYet(slots: seq<nat>, g: nat)
    requires forall i :: 0 <= i < |slots| ==> slots[i] != g
    ensures Pointing(slots, g) == 0
  {
    assert g !in slots;
  }

  lemma ShareKeeps(s: Files, i: nat, j: nat)
    requires Counted(s) && i < |s.slots| && j < |s.slots| && s.slots[j] == 0
    ensures Counted(Share(s, i, j)) && Share(s, i, j).slots == s.slots[j := s.slots[i]]
  {
    var s' := Share(s, i, j);
    if s.slots[i] == 0 {
      assert s.slots[j := 0] == s.slots;
    } else {
      forall g | 0 < g < |s'.files|
        ensures s'.files[g].count == Pointing(s'.slots, g)
      {
        SetSlot(s.slots, j, s.slots[i], g);
      }
    }
  }

  lemma Dup2Keeps(s: Files, i: nat, j: nat)
    requires Counted(s) && i < |s.slots| && j < |s.slots| && i != j
    ensures Counted(Dup2(s, i, j)) && Dup2(s, i, j).slots == s.slots[j := s.slots[i]]
  {
    CloseKeeps(s, j);
    ShareKeeps(Close(s, j), i, j);
  }

  ghost predicate InRow(task: nat, i: nat)
  {
    Slot(task, 0) <= i < Slot(task, NR_OPEN)
  }

  /** fork: the child's row becomes a copy of the parent's, and every shared FILE counts it. */
  lemma {:induction false} InheritKeeps(s: Files, parent: nat, child: nat, n: nat)
    requires Counted(s) && parent < NR_TASKS && child < NR_TASKS && parent != child && n <= NR_OPEN
    requires forall i :: 0 <= i < NR_SLOTS && InRow(child, i) ==> s.slots[i] == 0
    ensures Counted(Inherit(s, parent, child, n))
    ensures forall i :: 0 <= i < NR_SLOTS && !InRow(child, i) ==> Inherit(s, parent, child, n).slots[i] == s.slots[i]
    ensures forall i :: Slot(child, 0) <= i < Slot(child, n) ==> Inherit(s, parent, child, n).slots[i] == 0
    ensures forall k :: n <= k < NR_OPEN ==> Inherit(s, parent, child, n).slots[Slot(child, k)] == s.slots[Slot(parent, k)]
    decreases NR_OPEN - n
  {
    if n < NR_OPEN {
      InheritKeeps(s, parent, child, n + 1);
      var s' := Inherit(s, parent, child, n + 1);
      assert s'.slots[Slot(child, n)] == 0;
      assert !InRow(child, Slot(parent, n));
      ShareKeeps(s', Slot(parent, n), Slot(child, n));
    }
  }

  /** exit: nothing is left in the task's row. */
  lemma {:induction false} CloseAllKeeps(s: Files, task: nat, n: nat)
    requires Counted(s) && task < NR_TASKS && n <= NR_OPEN
    ensures Counted(CloseAll(s, task, n))
    ensures forall i :: Slot(task, 0) <= i < Slot(task, n) ==> CloseAll(s, task, n).slots[i] == 0
    ensures forall i :: 0 <= i < NR_SLOTS && !(Slot(task, 0) <= i < Slot(task, n)) ==> CloseAll(s, task, n).slots[i] == s.slots[i]
    decreases n
  {
    if n > 0 {
      CloseKeeps(s, Slot(task, n - 1));
      CloseAllKeeps(Close(s, Slot(task, n - 1)), task, n - 1);
    }
  }

  // ---- Runs ---------------------------------------------------------------

  /** The calls in terms of descriptors: open and dup into a free one, close, dup2 of two different ones, fork, exit. */
  datatype Call = DoOpen(i: nat, f: File) | DoClose(i: nat) | DoDup(i: nat, j: nat) | DoDup2(i: nat, j: nat)
    | DoFork(parent: nat, child: nat) | DoExit(task: nat)

  ghost predicate Enabled(s: Files, c: Call)
  {
    |s.slots| == NR_SLOTS &&
    match c
    case DoOpen(i, _) => i < NR_SLOTS && s.slots[i] == 0
    case DoClose(i) => i < NR_SLOTS
    case DoDup(i, j) => i < NR_SLOTS && j < NR_SLOTS && s.slots[j] == 0
    case DoDup2(i, j) => i < NR_SLOTS && j < NR_SLOTS && i != j
    case DoFork(parent, child) =>
      parent < NR_TASKS && child < NR_TASKS && parent != child && forall i :: 0 <= i < NR_SLOTS && InRow(child, i) ==> s.slots[i] == 0
    case DoExit(task) => task < NR_TASKS
  }

  ghost function Apply(s: Files, c: Call): Files
    requires Enabled(s, c)
  {
    match c
    case DoOpen(i, f) => Open(s, i, f)
    case DoClose(i) => Close(s, i)
    case DoDup(i, j) => Share(s, i, j)
    case DoDup2(i, j) => Dup2(s, i, j)
    case DoFork(parent, child) => Inherit(s, parent, child, 0)
    case DoExit(task) => CloseAll(s, task, NR_OPEN)
  }

  /** s' comes out of s by the calls, one after the other. */
  ghost predicate Run(s: Files, calls: seq<Call>, s': Files)
    decreases |calls|
  {
    if calls == [] then s == s' else Enabled(s, calls[0]) && Run(Apply(s, calls[0]), calls[1..], s')
  }

  /** In every run each FILE counts its descriptors in all tasks, and is released exactly when none is left. */
  lemma {:induction false} RunsCountDescriptors(s: Files, calls: seq<Call>, s': Files)
    requires Counted(s) && Run(s, calls, s')
    ensures Counted(s')
    ensures forall f :: 0 < f < |s'.files| ==> (s'.files[f].count == 0 <==> f !in s'.slots)
    decreases |calls|
  {
    if calls != [] {
      match calls[0] {
        case DoOpen(i, f) => OpenKeeps(s, i, f);
        case DoClose(i) => CloseKeeps(s, i);
        case DoDup(i, j) => ShareKeeps(s, i, j);
        case DoDup2(i, j) => Dup2Keeps(s, i, j);
        case DoFork(parent, child) => InheritKeeps(s, parent, child, 0);
        case DoExit(task) => CloseAllKeeps(s, task, NR_OPEN);
      }
      RunsCountDescriptors(Apply(s, calls[0]), calls[1..], s');
    }
  }

  // ---- Which vnodes FILEs hold --------------------------------------------

  /** One reference for each FILE that has not been released. */
  function Nodes(files: seq<File>): (r: seq<nat>)
    ensures |r| == |files|
  {
    seq(|files|, f requires 0 <= f < |files| => if files[f].count == 0 then 0 else files[f].node)
  }

  lemma CloseFreesOne(s: Files, i: nat, v: nat)
    requires Counted(s) && i < |s.slots| && v != 0
    ensures Pointing(Nodes(Close(s, i).files), v) == Pointing(Nodes(s.files), v) - (if v == Freed(s, i) then 1 else 0)
  {
    var f := s.slots[i];
    if f != 0 {
      OpenMeansAlive(s, i);
      var files' := Close(s, i).files;
      assert Nodes(files') == Nodes(s.files)[f := if files'[f].count == 0 then 0 else files'[f].node];
      SetSlot(Nodes(s.files), f, if files'[f].count == 0 then 0 else files'[f].node, v);
    }
  }

  lemma OpenHoldsOne(s: Files, i: nat, f: File, v: nat)
    requires i < |s.slots|
    ensures Pointing(Nodes(Open(s, i, f).files), v) == Pointing(Nodes(s.files), v) + (if v == f.node then 1 else 0)
  {
    assert Nodes(Open(s, i, f).files) == Nodes(s.files) + [f.node];
  }

  lemma ShareHoldsNone(s: Files, i: nat, j: nat)
    requires Counted(s) && i < |s.slots| && j < |s.slots|
    ensures Nodes(Share(s, i, j).files) == Nodes(s.files)
  {
    if s.slots[i] != 0 {
      OpenMeansAlive(s, i);
    }
  }
}
