/** TAILQ (server/queue.h): doubly linked with a tail pointer, where back pointers are addresses of next-fields. */
module TailQueue {
  import opened Sequences

  /** The address of a pointer to a node: a head's first-field or a node's next-field.  `Nowhere` is an
      uninitialised address. */
  datatype Loc = Nowhere | AtHead(h: Head) | AtNode(n: Node)

  class Node {
    var tqeNext: Node?
    var tqePrev: Loc
  }

  ghost function Holder(l: Loc): set<object> {
    match l
    case Nowhere => {}
    case AtHead(h) => {h}
    case AtNode(n) => {n}
  }

  /** The pointer stored at an address. */
  function Load(l: Loc): Node?
    reads Holder(l)
  {
    match l
    case Nowhere => null
    case AtHead(h) => h.tqhFirst
    case AtNode(n) => n.tqeNext
  }

  /** Stores a pointer at an address. */
  method Store(l: Loc, v: Node?)
    requires !l.Nowhere?
    modifies Holder(l)
    ensures match l
      case Nowhere => true
      case AtHead(h) => h.tqhFirst == v && h.tqhLast == old(h.tqhLast) && h.nodes == old(h.nodes)
      case AtNode(n) => n.tqeNext == v && n.tqePrev == old(n.tqePrev)
  {
    match l
    case AtHead(h) => h.tqhFirst := v;
    case AtNode(n) => n.tqeNext := v;
  }

  /** The cast behind TAILQ_LAST and TAILQ_PREV: whatever holds the pointer at `l`, head or entry, is read as
      if it were a head, and its second field taken. */
  function SecondField(l: Loc): Loc
    reads Holder(l)
  {
    match l
    case Nowhere => Nowhere
    case AtHead(h) => h.tqhLast
    case AtNode(n) => n.tqePrev
  }

  /** Node `i` of a list, or null past the end. */
  ghost function NodeAt(nodes: seq<Node>, i: nat): Node? {
    if i < |nodes| then nodes[i] else null
  }

  class Head {
    var tqhFirst: Node?
    var tqhLast: Loc

    /** The list this head stands for. */
    ghost var nodes: seq<Node>

    /** Next pointers spell out `nodes`; every back pointer is the address that holds the node; `tqhLast` is
        the address that holds the final null. */
    ghost predicate Valid()
      reads this, nodes
    {
      && Distinct(nodes)
      && (forall i, j :: 0 <= i < j < |nodes| && j == i + 1 ==>
            nodes[i].tqeNext == nodes[j] && nodes[j].tqePrev == AtNode(nodes[i]))
      && if nodes == [] then tqhFirst == null && tqhLast == AtHead(this)
         else
           var last := nodes[|nodes| - 1];
           && tqhFirst == nodes[0] && nodes[0].tqePrev == AtHead(this)
           && tqhLast == AtNode(last) && last.tqeNext == null
    }

    /** What the pointers of node `i` are. */
    lemma Neighbours(i: nat)
      requires Valid() && i < |nodes|
      ensures nodes[i].tqeNext == NodeAt(nodes, i + 1)
      ensures nodes[i].tqePrev == if i == 0 then AtHead(this) else AtNode(nodes[i - 1])
    {
      assert i + 1 < |nodes| ==> nodes[i].tqeNext == nodes[i + 1];
      assert i > 0 ==> nodes[i].tqePrev == AtNode(nodes[i - 1]);
    }

    /** TAILQ_INIT. */
    method Init()
      modifies this
      ensures Valid() && nodes == []
    {
      tqhFirst := null;
      tqhLast := AtHead(this);
      nodes := [];
    }

    /** TAILQ_INSERT_HEAD. */
    method InsertHead(elm: Node)
      requires Valid() && elm !in nodes
      modifies this, nodes, elm
      ensures Valid() && nodes == [elm] + old(nodes)
    {
      elm.tqeNext := tqhFirst;
      if elm.tqeNext != null {
        tqhFirst.tqePrev := AtNode(elm);
      } else {
        tqhLast := AtNode(elm);
      }
      tqhFirst := elm;
      elm.tqePrev := AtHead(this);
      nodes := [elm] + nodes;
    }

    /** TAILQ_INSERT_TAIL. */
    method InsertTail(elm: Node)
      requires Valid() && elm !in nodes
      modifies this, nodes, elm
      ensures Valid() && nodes == old(nodes) + [elm]
    {
      elm.tqeNext := null;
      elm.tqePrev := tqhLast;
      Store(tqhLast, elm);
      tqhLast := AtNode(elm);
      nodes := nodes + [elm];
    }

    /** TAILQ_INSERT_AFTER. */
    method InsertAfter(listelm: Node, elm: Node, ghost i: nat)
      requires Valid() && elm !in nodes
      requires i < |nodes| && nodes[i] == listelm
      modifies this, nodes, elm
      ensures Valid() && nodes == old(nodes)[..i + 1] + [elm] + old(nodes)[i + 1..]
    {
      LinkAfter(listelm, elm, i);
      nodes := nodes[..i + 1] + [elm] + nodes[i + 1..];
    }

    /** The assignments of the macro: only the pointers around the new node change. */
    method LinkAfter(listelm: Node, elm: Node, ghost i: nat)
      requires Valid() && elm !in nodes
      requires i < |nodes| && nodes[i] == listelm
      modifies this, nodes, elm
      ensures nodes == old(nodes) && tqhFirst == old(tqhFirst)
      ensures elm.tqeNext == NodeAt(nodes, i + 1) && elm.tqePrev == AtNode(listelm) && listelm.tqeNext == elm
      ensures if i + 1 < |nodes| then tqhLast == old(tqhLast) && nodes[i + 1].tqePrev == AtNode(elm)
              else tqhLast == AtNode(elm)
      ensures forall j :: 0 <= j < |nodes| && j != i ==> nodes[j].tqeNext == old(nodes[j].tqeNext)
      ensures forall j :: 0 <= j < |nodes| && j != i + 1 ==> nodes[j].tqePrev == old(nodes[j].tqePrev)
    {
      Neighbours(i);
      elm.tqeNext := listelm.tqeNext;
      if elm.tqeNext != null {
        elm.tqeNext.tqePrev := AtNode(elm);
      } else {
        tqhLast := AtNode(elm);
      }
      listelm.tqeNext := elm;
      elm.tqePrev := AtNode(listelm);
    }

    /** TAILQ_REMOVE. */
    method Remove(elm: Node, ghost i: nat)
      requires Valid()
      requires i < |nodes| && nodes[i] == elm
      modifies this, nodes
      ensures Valid() && nodes == old(nodes)[..i] + old(nodes)[i + 1..]
    {
      Unlink(elm, i);
      nodes := nodes[..i] + nodes[i + 1..];
    }

    /** The assignments of the macro: only the pointers around the node change. */
    method Unlink(elm: Node, ghost i: nat)
      requires Valid()
      requires i < |nodes| && nodes[i] == elm
      modifies this, nodes
      ensures nodes == old(nodes)
      ensures if i == 0 then tqhFirst == NodeAt(nodes, 1)
              else tqhFirst == old(tqhFirst) && nodes[i - 1].tqeNext == NodeAt(nodes, i + 1)
      ensures if i + 1 < |nodes| then tqhLast == old(tqhLast) && nodes[i + 1].tqePrev == old(elm.tqePrev)
              else tqhLast == old(elm.tqePrev)
      ensures forall j :: 0 <= j < |nodes| && j != i - 1 ==> nodes[j].tqeNext == old(nodes[j].tqeNext)
      ensures forall j :: 0 <= j < |nodes| && j != i + 1 ==> nodes[j].tqePrev == old(nodes[j].tqePrev)
    {
      Neighbours(i);
      if elm.tqeNext != null {
        elm.tqeNext.tqePrev := elm.tqePrev;
      } else {
        tqhLast := elm.tqePrev;
      }
      Store(elm.tqePrev, elm.tqeNext);
    }

    /** TAILQ_CONCAT. */
    method Concat(head2: Head)
      requires Valid() && head2.Valid() && head2 != this
      modifies this, nodes, head2, head2.nodes
      ensures Valid() && nodes == old(nodes) + old(head2.nodes)
      ensures head2.Valid() && head2.nodes == []
    {
      DistinctHeadsShareNothing(this, head2);
      if head2.tqhFirst != null {
        Store(tqhLast, head2.tqhFirst);
        head2.tqhFirst.tqePrev := tqhLast;
        tqhLast := head2.tqhLast;
        nodes := nodes + head2.nodes;
        head2.Init();
      }
    }

    /** TAILQ_SWAP. */
    method Swap(head2: Head)
      requires Valid() && head2.Valid() && head2 != this
      modifies this, nodes, head2, head2.nodes
      ensures Valid() && nodes == old(head2.nodes)
      ensures head2.Valid() && head2.nodes == old(nodes)
    {
      DistinctHeadsShareNothing(this, head2);
      var swapFirst, swapLast := tqhFirst, tqhLast;
      tqhFirst, tqhLast := head2.tqhFirst, head2.tqhLast;
      head2.tqhFirst, head2.tqhLast := swapFirst, swapLast;
      nodes, head2.nodes := head2.nodes, nodes;
      if tqhFirst != null {
        tqhFirst.tqePrev := AtHead(this);
      } else {
        tqhLast := AtHead(this);
      }
      if head2.tqhFirst != null {
        head2.tqhFirst.tqePrev := AtHead(head2);
      } else {
        head2.tqhLast := AtHead(head2);
      }
    }

    /** TAILQ_LAST: the last node, or null for the empty list. */
    function Last(): (n: Node?)
      requires Valid()
      reads this, nodes
      ensures n == if nodes == [] then null else nodes[|nodes| - 1]
    {
      assert |nodes| > 1 ==> nodes[|nodes| - 1].tqePrev == AtNode(nodes[|nodes| - 2]);
      Load(SecondField(tqhLast))
    }

    /** TAILQ_PREV: the predecessor, or null for the first node. */
    function Prev(elm: Node, ghost i: nat): (n: Node?)
      requires Valid() && i < |nodes| && nodes[i] == elm
      reads this, nodes
      ensures n == if i == 0 then null else nodes[i - 1]
    {
      Neighbours(i);
      assert i > 1 ==> nodes[i - 1].tqePrev == AtNode(nodes[i - 2]);
      Load(SecondField(elm.tqePrev))
    }

    /** TAILQ_FOREACH. */
    method Foreach() returns (visited: seq<Node>)
      requires Valid()
      ensures visited == nodes
    {
      visited := [];
      var elm := tqhFirst;
      while elm != null
        invariant |visited| <= |nodes| && visited == nodes[..|visited|]
        invariant elm == NodeAt(nodes, |visited|)
        decreases |nodes| - |visited|
      {
        Neighbours(|visited|);
        visited := visited + [elm];
        elm := elm.tqeNext;
      }
    }

    /** TAILQ_FOREACH_REVERSE: exactly the reverse of TAILQ_FOREACH, and it ends. */
    method ForeachReverse() returns (visited: seq<Node>)
      requires Valid()
      ensures |visited| == |nodes|
      ensures forall k :: 0 <= k < |nodes| ==> visited[k] == nodes[|nodes| - 1 - k]
    {
      visited := [];
      var elm := Last();
      while elm != null
        invariant |visited| <= |nodes|
        invariant forall k :: 0 <= k < |visited| ==> visited[k] == nodes[|nodes| - 1 - k]
        invariant elm == if |visited| == |nodes| then null else nodes[|nodes| - 1 - |visited|]
        decreases |nodes| - |visited|
      {
        ghost var i := |nodes| - 1 - |visited|;
        visited := visited + [elm];
        elm := Prev(elm, i);
      }
    }
  }

  /** TAILQ_INSERT_BEFORE, which is given no head: the back pointer alone finds what to update. */
  method InsertBefore(listelm: Node, elm: Node, ghost head: Head, ghost i: nat)
    requires head.Valid() && elm !in head.nodes
    requires i < |head.nodes| && head.nodes[i] == listelm
    modifies head, head.nodes, elm
    ensures head.Valid() && head.nodes == old(head.nodes)[..i] + [elm] + old(head.nodes)[i..]
  {
    head.Neighbours(i);
    LinkBefore(listelm, elm, head, i);
    head.nodes := head.nodes[..i] + [elm] + head.nodes[i..];
  }

  /** The four assignments of the macro: only the pointers around the new node change. */
  method LinkBefore(listelm: Node, elm: Node, ghost head: Head, ghost i: nat)
    requires head.Valid() && elm !in head.nodes
    requires i < |head.nodes| && head.nodes[i] == listelm
    modifies head, head.nodes, elm
    ensures head.nodes == old(head.nodes) && head.tqhLast == old(head.tqhLast)
    ensures elm.tqeNext == listelm && elm.tqePrev == old(listelm.tqePrev) && listelm.tqePrev == AtNode(elm)
    ensures if i == 0 then head.tqhFirst == elm
            else head.tqhFirst == old(head.tqhFirst) && head.nodes[i - 1].tqeNext == elm
    ensures forall j :: 0 <= j < |head.nodes| && j != i - 1 ==> head.nodes[j].tqeNext == old(head.nodes[j].tqeNext)
    ensures forall j :: 0 <= j < |head.nodes| && j != i ==> head.nodes[j].tqePrev == old(head.nodes[j].tqePrev)
  {
    head.Neighbours(i);
    elm.tqePrev := listelm.tqePrev;
    elm.tqeNext := listelm;
    Store(listelm.tqePrev, elm);
    listelm.tqePrev := AtNode(elm);
  }

  /** A node is on at most one list: back pointers lead to its head. */
  lemma DistinctHeadsShareNothing(h: Head, k: Head)
    requires h.Valid() && k.Valid() && h != k
    ensures forall i, j :: 0 <= i < |h.nodes| && 0 <= j < |k.nodes| ==> h.nodes[i] != k.nodes[j]
  {
    forall i, j | 0 <= i < |h.nodes| && 0 <= j < |k.nodes|
      ensures h.nodes[i] != k.nodes[j]
    {
      NodesDiffer(h, k, i, j);
    }
  }

  lemma {:induction false} NodesDiffer(h: Head, k: Head, i: nat, j: nat)
    requires h.Valid() && k.Valid() && h != k
    requires i < |h.nodes| && j < |k.nodes|
    ensures h.nodes[i] != k.nodes[j]
    decreases i
  {
    h.Neighbours(i);
    k.Neighbours(j);
    if i > 0 && j > 0 {
      NodesDiffer(h, k, i - 1, j - 1);
    }
  }
}
