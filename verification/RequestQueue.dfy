/** The linked list of requests behind a device (src/drivers/drivers.c), appended to and popped in place. */
module RequestQueue {
  import opened Chains

  ghost function PidsOf(pids: map<nat, int>, chain: seq<nat>): seq<int>
    requires forall i :: 0 <= i < |chain| ==> chain[i] in pids
  {
    seq(|chain|, i requires 0 <= i < |chain| => pids[chain[i]])
  }

  /** The two fields of every request_t in memory, by its address. */
  class Queue {
    var pids: map<nat, int>
    var next: map<nat, nat>
    var head: nat
    ghost var chain: seq<nat>

    ghost predicate Valid()
      reads this
    {
      && IsChain(next, head, chain) && next.Keys == pids.Keys
      && forall i :: 0 <= i < |chain| ==> chain[i] in pids
    }

    /** Who waits, first in line first. */
    ghost function Pids(): seq<int>
      reads this
      requires Valid()
    {
      PidsOf(pids, chain)
    }

    constructor ()
      ensures Valid() && Pids() == []
    {
      pids, next, head, chain := map[], map[], 0, [];
    }

    /** The cli section of device_lock; request is what malloc returned. */
    method Append(request: nat, pid: int)
      requires Valid() && request != 0 && request !in pids
      modifies this
      ensures Valid() && Pids() == old(Pids()) + [pid]
    {
      AppendChain(next, head, chain, request);
      pids, next := pids[request := pid], next[request := 0];
      if head == 0 {
        assert chain != [] ==> NextOk(old(next), chain, 0);
        head := request;
      } else {
        var tmp := head;
        ghost var i: nat := 0;
        assert NextOk(old(next), chain, 0);
        while next[tmp] != 0
          invariant i < |chain| && tmp == chain[i] && NextOk(old(next), chain, i)
          decreases |chain| - i
        {
          tmp := next[tmp];
          i := i + 1;
          assert NextOk(old(next), chain, i);
        }
        assert i + 1 < |chain| ==> NextOk(old(next), chain, i + 1);
        next := next[tmp := request];
      }
      chain := chain + [request];
    }

    /** The cli section of device_unlock: only the task at the head can take itself off. */
    method Pop(pid: int) returns (ok: bool)
      requires Valid() && Pids() != []
      modifies this
      ensures Valid() && ok == (old(Pids())[0] == pid)
      ensures Pids() == if ok then old(Pids())[1..] else old(Pids())
      ensures pids.Keys == if ok then old(pids.Keys) - {old(head)} else old(pids.Keys)
    {
      var req := head;
      assert NextOk(next, chain, 0);
      if pids[req] != pid {
        return false;
      }
      UnlinkChain(next, head, chain, 0);
      head := next[req];
      pids, next := pids - {req}, next - {req};
      chain := Without(chain, 0);
      return true;
    }
  }
}
