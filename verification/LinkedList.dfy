/** LIST (server/queue.h): doubly linked without a tail pointer; back pointers are addresses of next-fields. */
module LinkedList {
  import opened Sequences

  /** The address of a pointer to a node: a head's first-field or a node's next-field. */
  datatype Loc = Nowhere | AtHead(h: Head) | AtNode(n: Node)

  class Node {
    var leNext: Node?
    var lePrev: Loc
  }

  ghost function Holder(l: Loc): set<object> {
    match l
    case Nowhere => {}
    case AtHead(h) => {h}
    case AtNode(n) => {n}
  }

  /** Stores a pointer at an address. */
  method Store(l: Loc, v: Node?)
    requires !l.Nowhere?
    modifies Holder(l)
    ensures match l
      case Nowhere => true
      case AtHead(h) => h.lhFirst == v && h.nodes == old(h.nodes)
      case AtNode(n) => n.leNext == v && n.lePrev == old(n.lePrev)
  {
    match l
    case AtHead(h) => h.lhFirst := v;
    case AtNode(n) => n.leNext := v;
  }

  class Head {
    var lhFirst: Node?

    /** The list this head stands for. */
    ghost var nodes: seq<Node>

    /** Next pointers spell out `nodes`, and every back pointer is the address that holds the node. */
    ghost predicate Valid()
      reads this, nodes
    {
      && Distinct(nodes)
      && (forall i, j :: 0 <= i < j < |nodes| && j == i + 1 ==>
            nodes[i].leNext == nodes[j] && nodes[j].lePrev == AtNode(nodes[i]))
      && if nodes == [] then lhFirst == null
         else lhFirst == nodes[0] && nodes[0].lePrev == AtHead(this) && nodes[|nodes| - 1].leNext == null
    }

    /** What the pointers of node `i` are. */
    lemma Neighbours(i: nat)
      requires Valid() && i < |nodes|
      ensures nodes[i].leNext == if i + 1 < |nodes| then nodes[i + 1] else null
      ensures nodes[i].lePrev == if i == 0 then AtHead(this) else AtNode(nodes[i - 1])
    {
      assert i + 1 < |nodes| ==> nodes[i].leNext == nodes[i + 1];
      assert i > 0 ==> nodes[i].lePrev == AtNode(nodes[i - 1]);
    }

    /** LIST_INIT. */
    method Init()
      modifies this
      ensures Valid() && nodes == []
    {
      lhFirst := null;
      nodes := [];
    }

    /** LIST_INSERT_HEAD. */
    method InsertHead(elm: Node)
      requires Valid() && elm !in nodes
      modifies this, nodes, elm
      ensures Valid() && nodes == [elm] + old(nodes)
    {
      elm.leNext := lhFirst;
      if elm.leNext != null {
        lhFirst.lePrev := AtNode(elm);
      }
      lhFirst := elm;
      elm.lePrev := AtHead(this);
      nodes := [elm] + nodes;
    }

    /** LIST_CONCAT: the walk to the last node ends. */
    method Concat(head2: Head)
      requires Valid() && head2.Valid() && head2 != this
      modifies this, nodes, head2, head2.nodes
      ensures Valid() && nodes == old(nodes) + old(head2.nodes)
      ensures head2.Valid() && head2.nodes == []
    {
      DistinctHeadsShareNothing(this, head2);
      if lhFirst == null {
        if head2.lhFirst != null {
          TakeOver(head2);
          head2.Init();
        }
      } else if head2.lhFirst != null {
        LinkLists(head2);
        head2.Init();
      }
      assert old(head2.nodes) == [] ==> old(nodes) + old(head2.nodes) == old(nodes);
    }

    /** An empty list takes over the other one. */
    method TakeOver(head2: Head)
      requires Valid() && head2.Valid() && nodes == [] && head2.nodes != []
      modifies this, head2.nodes
      ensures Valid() && nodes == old(nodes) + head2.nodes
    {
      lhFirst := head2.lhFirst;
      head2.lhFirst.lePrev := AtHead(this);
      nodes := nodes + head2.nodes;
    }

    /** The walk to the last node, and the two assignments behind it. */
    method LinkLists(head2: Head)
      requires Valid() && head2.Valid() && nodes != [] && head2.nodes != []
      requires forall i, j :: 0 <= i < |nodes| && 0 <= j < |head2.nodes| ==> nodes[i] != head2.nodes[j]
      modifies this`nodes, nodes, head2.nodes
      ensures Valid() && nodes == old(nodes) + old(head2.nodes)
    {
      var curelm := LastNode();
      curelm.leNext := head2.lhFirst;
      head2.lhFirst.lePrev := AtNode(curelm);
      nodes := nodes + head2.nodes;
    }

    /** The loop of LIST_CONCAT. */
    method LastNode() returns (curelm: Node)
      requires Valid() && nodes != []
      ensures curelm == nodes[|nodes| - 1]
    {
      curelm := lhFirst;
      ghost var k := 0;
      Neighbours(0);
      while curelm.leNext != null
        invariant 0 <= k < |nodes| && curelm == nodes[k]
        invariant curelm.leNext == if k + 1 < |nodes| then nodes[k + 1] else null
        decreases |nodes| - k
      {
        curelm := curelm.leNext;
        k := k + 1;
        Neighbours(k);
      }
    }

    /** LIST_SWAP. */
    method Swap(head2: Head)
      requires Valid() && head2.Valid() && head2 != this
      modifies this, nodes, head2, head2.nodes
      ensures Valid() && nodes == old(head2.nodes)
      ensures head2.Valid() && head2.nodes == old(nodes)
    {
      DistinctHeadsShareNothing(this, head2);
      var swapTmp := lhFirst;
      lhFirst := head2.lhFirst;
      head2.lhFirst := swapTmp;
      nodes, head2.nodes := head2.nodes, nodes;
      if lhFirst != null {
        lhFirst.lePrev := AtHead(this);
      }
      if head2.lhFirst != null {
        head2.lhFirst.lePrev := AtHead(head2);
      }
    }

    /** LIST_PREV: null exactly for the node the head points to. */
    function Prev(elm: Node, ghost i: nat): (n: Node?)
      requires Valid() && i < |nodes| && nodes[i] == elm
      reads this, nodes
      ensures n == if i == 0 then null else nodes[i - 1]
    {
      Neighbours(i);
      if elm.lePrev == AtHead(this) then null else elm.lePrev.n
    }
  }

  /** LIST_INSERT_AFTER, which is given no head. */
  method InsertAfter(listelm: Node, elm: Node, ghost head: Head, ghost i: nat)
    requires head.Valid() && elm !in head.nodes
    requires i < |head.nodes| && head.nodes[i] == listelm
    modifies head, head.nodes, elm
    ensures head.Valid() && head.nodes == old(head.nodes)[..i + 1] + [elm] + old(head.nodes)[i + 1..]
  {
    LinkAfter(listelm, elm, head, i);
    head.nodes := head.nodes[..i + 1] + [elm] + head.nodes[i + 1..];
  }

  /** The assignments of the macro: only the pointers around the new node change. */
  method LinkAfter(listelm: Node, elm: Node, ghost head: Head, ghost i: nat)
    requires head.Valid() && elm !in head.nodes
    requires i < |head.nodes| && head.nodes[i] == listelm
    modifies head.nodes, elm
    ensures elm.leNext == old(listelm.leNext) && elm.lePrev == AtNode(listelm) && listelm.leNext == elm
    ensures i + 1 < |head.nodes| ==> elm.leNext == head.nodes[i + 1] && head.nodes[i + 1].lePrev == AtNode(elm)
    ensures i + 1 == |head.nodes| ==> elm.leNext == null
    ensures forall j :: 0 <= j < |head.nodes| && j != i ==> head.nodes[j].leNext == old(head.nodes[j].leNext)
    ensures forall j :: 0 <= j < |head.nodes| && j != i + 1 ==> head.nodes[j].lePrev == old(head.nodes[j].lePrev)
  {
    head.Neighbours(i);
    elm.leNext := listelm.leNext;
    if elm.leNext != null {
      listelm.leNext.lePrev := AtNode(elm);
    }
    listelm.leNext := elm;
    elm.lePrev := AtNode(listelm);
  }

  /** LIST_INSERT_BEFORE, which is given no head: the back pointer alone finds what to update. */
  method InsertBefore(listelm: Node, elm: Node, ghost head: Head, ghost i: nat)
    requires head.Valid() && elm !in head.nodes
    requires i < |head.nodes| && head.nodes[i] == listelm
    modifies head, head.nodes, elm
    ensures head.Valid() && head.nodes == old(head.nodes)[..i] + [elm] + old(head.nodes)[i..]
  {
    head.Neighbours(i);
    LinkBefore(listelm, elm, head, i);
    head.nodes := head.nodes[..i] + [elm] + head.nodes[i..];
  }

  /** The four assignments of the macro: only the pointers around the new node change. */
  method LinkBefore(listelm: Node, elm: Node, ghost head: Head, ghost i: nat)
    requires head.Valid() && elm !in head.nodes
    requires i < |head.nodes| && head.nodes[i] == listelm
    modifies head, head.nodes, elm
    ensures head.nodes == old(head.nodes)
    ensures elm.leNext == listelm && elm.lePrev == old(listelm.lePrev) && listelm.lePrev == AtNode(elm)
    ensures if i == 0 then head.lhFirst == elm
            else head.lhFirst == old(head.lhFirst) && head.nodes[i - 1].leNext == elm
    ensures forall j :: 0 <= j < |head.nodes| && j != i - 1 ==> head.nodes[j].leNext == old(head.nodes[j].leNext)
    ensures forall j :: 0 <= j < |head.nodes| && j != i ==> head.nodes[j].lePrev == old(head.nodes[j].lePrev)
  {
    head.Neighbours(i);
    elm.lePrev := listelm.lePrev;
    elm.leNext := listelm;
    Store(listelm.lePrev, elm);
    listelm.lePrev := AtNode(elm);
  }

  /** LIST_REMOVE, which is given no head either. */
  method Remove(elm: Node, ghost head: Head, ghost i: nat)
    requires head.Valid() && i < |head.nodes| && head.nodes[i] == elm
    modifies head, head.nodes
    ensures head.Valid() && head.nodes == old(head.nodes)[..i] + old(head.nodes)[i + 1..]
  {
    head.Neighbours(i);
    if elm.leNext != null {
      elm.leNext.lePrev := elm.lePrev;
    }
    Store(elm.lePrev, elm.leNext);
    head.nodes := head.nodes[..i] + head.nodes[i + 1..];
  }

  /** A node is on at most one list: back pointers lead to its head. */
  lemma DistinctHeadsShareNothing(h: Head, k: Head)
    requires h.Valid() && k.Valid() && h != k
    ensures forall i, j :: 0 <= i < |h.nodes| && 0 <= j < |k.nodes| ==> h.nodes[i] != k.nodes[j]
  {
    forall i, j | 0 <= i < |h.nodes| && 0 <= j < |k.nodes|
      ensures h.nodes[i] != k.nodes[j]
    {
      NodesDiffer(h, k, i, j);
    }
  }

  lemma {:induction false} NodesDiffer(h: Head, k: Head, i: nat, j: nat)
    requires h.Valid() && k.Valid() && h != k
    requires i < |h.nodes| && j < |k.nodes|
    ensures h.nodes[i] != k.nodes[j]
    decreases i
  {
    h.Neighbours(i);
    k.Neighbours(j);
    if i > 0 && j > 0 {
      NodesDiffer(h, k, i - 1, j - 1);
    }
  }
}
