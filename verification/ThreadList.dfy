/** The server's list of client threads: an SLIST (server/queue.h) of thread records (server/aesdsocket.h). */
module ThreadList {
  import opened Sequences

  /** One record; `thread` fields are written by the client thread, `sleNext` by the main thread only. */
  class ThreadArgs {
    const sockFd: nat
    var finished: bool
    var sleNext: ThreadArgs?

    constructor (sockFd: nat)
      ensures this.sockFd == sockFd && !finished
    {
      this.sockFd, finished, sleNext := sockFd, false, null;
    }
  }

  ghost function NodeAt(nodes: seq<ThreadArgs>, i: nat): ThreadArgs? {
    if i < |nodes| then nodes[i] else null
  }

  class Head {
    var slhFirst: ThreadArgs?

    /** The list this head stands for. */
    ghost var nodes: seq<ThreadArgs>

    ghost predicate Valid()
      reads this, nodes`sleNext
    {
      && (forall i {:trigger nodes[i].sleNext} :: 0 <= i < |nodes| - 1 ==> nodes[i].sleNext == nodes[i + 1])
      && if nodes == [] then slhFirst == null
         else slhFirst == nodes[0] && nodes[|nodes| - 1].sleNext == null
    }

    lemma NextOf(i: nat)
      requires Valid() && i < |nodes|
      ensures nodes[i].sleNext == NodeAt(nodes, i + 1)
    {
      assert i + 1 < |nodes| ==> nodes[i].sleNext == nodes[i + 1];
    }

    /** A chain that ends in null visits no node twice. */
    lemma NoRepeats()
      requires Valid()
      ensures Distinct(nodes)
    {
      forall i, j | 0 <= i < j < |nodes|
        ensures nodes[i] != nodes[j]
      {
        TailsDiffer(i, j);
      }
    }

    lemma {:induction false} TailsDiffer(i: nat, j: nat)
      requires Valid() && i < j < |nodes|
      ensures nodes[i] != nodes[j]
      decreases |nodes| - j
    {
      NextOf(i);
      NextOf(j);
      if j + 1 < |nodes| {
        TailsDiffer(i + 1, j + 1);
      }
    }

    /** SLIST_INIT. */
    constructor ()
      ensures Valid() && nodes == []
    {
      slhFirst := null;
      nodes := [];
    }

    /** SLIST_INSERT_HEAD. */
    method InsertHead(elm: ThreadArgs)
      requires Valid() && elm !in nodes
      modifies this, elm`sleNext
      ensures Valid() && nodes == [elm] + old(nodes)
    {
      elm.sleNext := slhFirst;
      slhFirst := elm;
      nodes := [elm] + nodes;
    }

    /** SLIST_REMOVE_HEAD. */
    method RemoveHead()
      requires Valid() && nodes != []
      modifies this
      ensures Valid() && nodes == old(nodes)[1..]
    {
      NextOf(0);
      slhFirst := slhFirst.sleNext;
      nodes := nodes[1..];
    }

    /** SLIST_REMOVE_AFTER: takes out the node after `elm`. */
    method RemoveAfter(elm: ThreadArgs, ghost i: nat)
      requires Valid() && i + 1 < |nodes| && nodes[i] == elm
      modifies this, elm`sleNext
      ensures Valid() && nodes == old(nodes)[..i + 1] + old(nodes)[i + 2..]
    {
      NoRepeats();
      NextOf(i);
      NextOf(i + 1);
      elm.sleNext := elm.sleNext.sleNext;
      nodes := nodes[..i + 1] + nodes[i + 2..];
    }

    /** The loop of SLIST_REMOVE. */
    method Predecessor(elm: ThreadArgs, ghost i: nat) returns (curelm: ThreadArgs)
      requires Valid() && 0 < i < |nodes| && nodes[i] == elm
      ensures curelm == nodes[i - 1]
    {
      curelm := slhFirst;
      ghost var k := 0;
      NoRepeats();
      NextOf(0);
      while curelm.sleNext != elm
        invariant 0 <= k < i && curelm == nodes[k]
        invariant curelm.sleNext == nodes[k + 1]
        decreases i - k
      {
        curelm := curelm.sleNext;
        k := k + 1;
        NextOf(k);
      }
    }

    /** SLIST_REMOVE of any member. */
    method Remove(elm: ThreadArgs, ghost i: nat)
      requires Valid() && i < |nodes| && nodes[i] == elm
      modifies this, nodes`sleNext
      ensures Valid() && nodes == old(nodes)[..i] + old(nodes)[i + 1..]
    {
      NoRepeats();
      if slhFirst == elm {
        RemoveHead();
      } else {
        var curelm := Predecessor(elm, i);
        RemoveAfter(curelm, i - 1);
      }
    }
  }
}
