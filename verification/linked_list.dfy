/**
 * `ListNode` of the lab_4 scripts: a singly linked list whose head node is
 * the list.  The shape of a list is described by a ghost "spine", the
 * sequence of its nodes in order, so that a method that rewires one node
 * needs to name only that node in its `modifies` clause.
 */
module LinkedList {
  import opened Decimal

  class Node {
    const val: int
    var next: Node?

    /** `ListNode(val, next)`. */
    constructor (val: int, next: Node?)
      ensures this.val == val && this.next == next
    {
      this.val := val;
      this.next := next;
    }

    /**
     * `append_next(val)`: walk to the last node and hang a fresh node
     * holding `val` after it.  Only the old last node is written to.
     */
    method AppendNext(val: int, ghost nodes: seq<Node>) returns (ghost nodes': seq<Node>)
      requires IsList(this, nodes)
      modifies nodes[|nodes| - 1]
      ensures IsList(this, nodes')
      ensures |nodes'| == |nodes| + 1 && nodes'[..|nodes|] == nodes && fresh(nodes'[|nodes|])
      ensures Values(nodes') == Values(nodes) + [val]
    {
      var current := this;
      ghost var i := 0;
      while current.next != null
        invariant 0 <= i < |nodes| && current == nodes[i]
        invariant current.next == if i < |nodes| - 1 then nodes[i + 1] else null
        decreases |nodes| - i
      {
        current := current.next;
        i := i + 1;
      }
      var node;
      node, nodes' := LinkNew(this, nodes, current, val);
      assert nodes'[..|nodes|] == nodes;
    }

    /** `__str__`: the node values in list order, joined by " -> ". */
    method ToString(ghost nodes: seq<Node>) returns (s: string)
      requires IsList(this, nodes)
      ensures s == JoinWith(Spellings(Values(nodes)), " -> ")
    {
      var values: seq<string> := [];
      var current: Node? := this;
      ghost var i := 0;
      while current != null
        invariant 0 <= i <= |nodes|
        invariant current == if i < |nodes| then nodes[i] else null
        invariant values == Spellings(Values(nodes)[..i])
        decreases |nodes| - i
      {
        values := values + [IntToDecimal(current.val)];
        current := current.next;
        i := i + 1;
      }
      assert Values(nodes)[..i] == Values(nodes);
      s := JoinWith(values, " -> ");
    }
  }

  /**
   * `last.next = ListNode(val)` where `last` is the last node of a list:
   * the list gains one fresh node at its end and nothing else changes.
   */
  method LinkNew(ghost head: Node, ghost nodes: seq<Node>, last: Node, val: int)
    returns (node: Node, ghost nodes': seq<Node>)
    requires IsList(head, nodes) && last == nodes[|nodes| - 1]
    modifies last
    ensures fresh(node) && nodes' == nodes + [node]
    ensures IsList(head, nodes')
    ensures Values(nodes') == Values(nodes) + [val]
  {
    node := new Node(val, null);
    last.next := node;
    nodes' := nodes + [node];
  }

  /**
   * `head` is the first node of the acyclic list whose nodes, in order, are
   * `nodes`; the empty list is `None` (here `null`).
   */
  ghost predicate IsList(head: Node?, nodes: seq<Node>)
    reads nodes
  {
    && (if nodes == [] then head == null else head == nodes[0])
    && (forall i {:trigger nodes[i].next} :: 0 <= i < |nodes| - 1 ==> nodes[i].next == nodes[i + 1])
    && (nodes != [] ==> nodes[|nodes| - 1].next == null)
    && (forall i, j :: 0 <= i < j < |nodes| ==> nodes[i] != nodes[j])
  }

  /** The values held by `nodes`, in list order. */
  ghost function Values(nodes: seq<Node>): (vs: seq<int>)
    ensures |vs| == |nodes| && forall i {:trigger vs[i]} :: 0 <= i < |nodes| ==> vs[i] == nodes[i].val
  {
    seq(|nodes|, i requires 0 <= i < |nodes| => nodes[i].val)
  }
}
