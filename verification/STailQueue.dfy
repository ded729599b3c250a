/** STAILQ (server/queue.h): singly linked with a tail pointer, the address of the last next-field. */
module STailQueue {
  import opened Sequences

  /** The address of a pointer to a node: a head's first-field or a node's next-field. */
  datatype Loc = Nowhere | AtHead(h: Head) | AtNode(n: Node)

  class Node {
    var stqeNext: Node?
  }

  ghost function Holder(l: Loc): set<object> {
    match l
    case Nowhere => {}
    case AtHead(h) => {h}
    case AtNode(n) => {n}
  }

  /** Stores a pointer at an address. */
  method Store(l: Loc, v: Node?)
    requires !l.Nowhere?
    modifies Holder(l)
    ensures match l
      case Nowhere => true
      case AtHead(h) => h.stqhFirst == v && h.stqhLast == old(h.stqhLast) && h.nodes == old(h.nodes)
      case AtNode(n) => n.stqeNext == v
  {
    match l
    case AtHead(h) => h.stqhFirst := v;
    case AtNode(n) => n.stqeNext := v;
  }

  /** No node is on both lists. */
  ghost predicate Disjoint(a: seq<Node>, b: seq<Node>) {
    forall i, j :: 0 <= i < |a| && 0 <= j < |b| ==> a[i] != b[j]
  }

  class Head {
    var stqhFirst: Node?
    var stqhLast: Loc

    /** The list this head stands for. */
    ghost var nodes: seq<Node>

    /** Next pointers spell out `nodes`, and `stqhLast` is the address that holds the final null. */
    ghost predicate Valid()
      reads this, nodes
    {
      && Distinct(nodes)
      && (forall i, j :: 0 <= i < j < |nodes| && j == i + 1 ==> nodes[i].stqeNext == nodes[j])
      && if nodes == [] then stqhFirst == null && stqhLast == AtHead(this)
         else
           var last := nodes[|nodes| - 1];
           stqhFirst == nodes[0] && stqhLast == AtNode(last) && last.stqeNext == null
    }

    lemma NextOf(i: nat)
      requires Valid() && i < |nodes|
      ensures nodes[i].stqeNext == if i + 1 < |nodes| then nodes[i + 1] else null
    {
      assert i + 1 < |nodes| ==> nodes[i].stqeNext == nodes[i + 1];
    }

    /** STAILQ_INIT. */
    method Init()
      modifies this
      ensures Valid() && nodes == []
    {
      stqhFirst := null;
      stqhLast := AtHead(this);
      nodes := [];
    }

    /** STAILQ_INSERT_HEAD. */
    method InsertHead(elm: Node)
      requires Valid() && elm !in nodes
      modifies this, elm
      ensures Valid() && nodes == [elm] + old(nodes)
    {
      elm.stqeNext := stqhFirst;
      if elm.stqeNext == null {
        stqhLast := AtNode(elm);
      }
      stqhFirst := elm;
      nodes := [elm] + nodes;
    }

    /** STAILQ_INSERT_TAIL. */
    method InsertTail(elm: Node)
      requires Valid() && elm !in nodes
      modifies this, nodes, elm
      ensures Valid() && nodes == old(nodes) + [elm]
    {
      elm.stqeNext := null;
      Store(stqhLast, elm);
      stqhLast := AtNode(elm);
      nodes := nodes + [elm];
    }

    /** STAILQ_INSERT_AFTER. */
    method InsertAfter(tqelm: Node, elm: Node, ghost i: nat)
      requires Valid() && elm !in nodes
      requires i < |nodes| && nodes[i] == tqelm
      modifies this, tqelm, elm
      ensures Valid() && nodes == old(nodes)[..i + 1] + [elm] + old(nodes)[i + 1..]
    {
      NextOf(i);
      elm.stqeNext := tqelm.stqeNext;
      if elm.stqeNext == null {
        stqhLast := AtNode(elm);
      }
      tqelm.stqeNext := elm;
      nodes := nodes[..i + 1] + [elm] + nodes[i + 1..];
    }

    /** STAILQ_REMOVE_HEAD. */
    method RemoveHead()
      requires Valid() && nodes != []
      modifies this
      ensures Valid() && nodes == old(nodes)[1..]
    {
      NextOf(0);
      stqhFirst := stqhFirst.stqeNext;
      if stqhFirst == null {
        stqhLast := AtHead(this);
      }
      nodes := nodes[1..];
    }

    /** STAILQ_REMOVE_AFTER: takes out the node after `elm`. */
    method RemoveAfter(elm: Node, ghost i: nat)
      requires Valid() && i + 1 < |nodes| && nodes[i] == elm
      modifies this, elm
      ensures Valid() && nodes == old(nodes)[..i + 1] + old(nodes)[i + 2..]
    {
      NextOf(i);
      NextOf(i + 1);
      elm.stqeNext := elm.stqeNext.stqeNext;
      if elm.stqeNext == null {
        stqhLast := AtNode(elm);
      }
      nodes := nodes[..i + 1] + nodes[i + 2..];
    }

    /** STAILQ_REMOVE of any member: the walk to its predecessor ends. */
    method Remove(elm: Node, ghost i: nat)
      requires Valid() && i < |nodes| && nodes[i] == elm
      modifies this, nodes
      ensures Valid() && nodes == old(nodes)[..i] + old(nodes)[i + 1..]
    {
      if stqhFirst == elm {
        assert i == 0;
        RemoveHead();
      } else {
        var curelm := Predecessor(elm, i);
        RemoveAfter(curelm, i - 1);
      }
    }

    /** The loop of STAILQ_REMOVE. */
    method Predecessor(elm: Node, ghost i: nat) returns (curelm: Node)
      requires Valid() && 0 < i < |nodes| && nodes[i] == elm
      ensures curelm == nodes[i - 1]
    {
      curelm := stqhFirst;
      ghost var k := 0;
      NextOf(0);
      while curelm.stqeNext != elm
        invariant 0 <= k < i && curelm == nodes[k]
        invariant curelm.stqeNext == nodes[k + 1]
        decreases i - k
      {
        curelm := curelm.stqeNext;
        k := k + 1;
        NextOf(k);
      }
    }

    /** STAILQ_CONCAT. */
    method Concat(head2: Head)
      requires Valid() && head2.Valid() && head2 != this && Disjoint(nodes, head2.nodes)
      modifies this, nodes, head2
      ensures Valid() && nodes == old(nodes) + old(head2.nodes)
      ensures head2.Valid() && head2.nodes == []
    {
      if head2.stqhFirst != null {
        Store(stqhLast, head2.stqhFirst);
        stqhLast := head2.stqhLast;
        nodes := nodes + head2.nodes;
        head2.Init();
      }
    }

    /** STAILQ_SWAP. */
    method Swap(head2: Head)
      requires Valid() && head2.Valid() && head2 != this
      modifies this, head2
      ensures Valid() && nodes == old(head2.nodes)
      ensures head2.Valid() && head2.nodes == old(nodes)
    {
      var swapFirst, swapLast := stqhFirst, stqhLast;
      stqhFirst, stqhLast := head2.stqhFirst, head2.stqhLast;
      head2.stqhFirst, head2.stqhLast := swapFirst, swapLast;
      nodes, head2.nodes := head2.nodes, nodes;
      if stqhFirst == null {
        stqhLast := AtHead(this);
      }
      if head2.stqhFirst == null {
        head2.stqhLast := AtHead(head2);
      }
    }

    /** STAILQ_LAST: the node whose next-field the tail pointer addresses. */
    function Last(): (n: Node?)
      requires Valid()
      reads this, nodes
      ensures n == if nodes == [] then null else nodes[|nodes| - 1]
    {
      if stqhFirst == null then null else stqhLast.n
    }
  }
}
