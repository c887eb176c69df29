/** The intrusive doubly linked list: pointer surgery that refines operations on a sequence. */
module BiList {

  class Node<T> {
    const data: T
    var next: Node?<T>
    var previous: Node?<T>

    constructor (data: T)
      ensures this.data == data && next == null && previous == null
    {
      this.data := data;
      next, previous := null, null;
    }
  }

  ghost predicate Distinct<T>(ns: seq<Node<T>>) {
    forall i, j :: 0 <= i < j < |ns| ==> ns[i] != ns[j]
  }

  /** The links of the node at i point at its neighbours in ns, and at nothing past the ends. */
  ghost predicate LinkedAt<T>(ns: seq<Node<T>>, i: nat)
    requires i < |ns|
    reads ns[i]
  {
    && ns[i].previous == (if i == 0 then null else ns[i - 1])
    && ns[i].next == (if i + 1 == |ns| then null else ns[i + 1])
  }

  /** head, tail and all links spell out ns. */
  ghost predicate Threads<T>(head: Node?<T>, tail: Node?<T>, ns: seq<Node<T>>)
    reads ns
  {
    && head == (if ns == [] then null else ns[0])
    && tail == (if ns == [] then null else ns[|ns| - 1])
    && Distinct(ns)
    && forall i :: 0 <= i < |ns| ==> LinkedAt(ns, i)
  }

  /** The pointers determine the sequence. */
  lemma {:induction false} AgreeUpTo<T>(head: Node?<T>, tail: Node?<T>, a: seq<Node<T>>, b: seq<Node<T>>, n: nat)
    requires Threads(head, tail, a) && Threads(head, tail, b) && n <= |a|
    ensures n <= |b| && a[..n] == b[..n]
    decreases n
  {
    if n > 0 {
      AgreeUpTo(head, tail, a, b, n - 1);
      if n > 1 {
        assert LinkedAt(a, n - 2) && LinkedAt(b, n - 2);
        assert a[n - 2] == a[..n - 1][n - 2] == b[n - 2];
      }
      assert a[..n] == a[..n - 1] + [a[n - 1]];
      assert b[..n] == b[..n - 1] + [b[n - 1]];
    }
  }

  /** Two sequences threaded by the same head and tail are equal: the list has one meaning. */
  lemma PointersDetermineSequence<T>(head: Node?<T>, tail: Node?<T>, a: seq<Node<T>>, b: seq<Node<T>>)
    requires Threads(head, tail, a) && Threads(head, tail, b)
    ensures a == b
  {
    AgreeUpTo(head, tail, a, b, |a|);
    AgreeUpTo(head, tail, b, a, |b|);
  }

  /** A node in the middle of a list that has also become its tail: following the links from the head
      ends at the node, but its previous link leads to the old tail. */
  lemma NoThread<T>(head: Node?<T>, tail: Node?<T>, nodes: seq<Node<T>>, i: nat, ns: seq<Node<T>>)
    requires Distinct(nodes) && i < |nodes| && head == nodes[0] && tail == nodes[i]
    requires nodes[i].next == null && nodes[i].previous == nodes[|nodes| - 1]
    requires forall k :: 0 <= k < i ==> nodes[k].next == nodes[k + 1]
    ensures !Threads(head, tail, ns)
  {
    if Threads(head, tail, ns) {
      if i > 0 {
        Follows(nodes, i, ns, i - 1);
      }
      Follows(nodes, i, ns, i);
    }
  }

  lemma {:induction false} Follows<T>(nodes: seq<Node<T>>, i: nat, ns: seq<Node<T>>, k: nat)
    requires k <= i < |nodes| && ns != [] && ns[0] == nodes[0]
    requires forall k :: 0 <= k < i ==> nodes[k].next == nodes[k + 1]
    requires forall k :: 0 <= k < |ns| ==> LinkedAt(ns, k)
    ensures k < |ns| && ns[k] == nodes[k] && LinkedAt(ns, k)
  {
    if k > 0 {
      Follows(nodes, i, ns, k - 1);
      assert nodes[k - 1].next == nodes[k];
    }
  }

  class List<T> {
    var head: Node?<T>
    var tail: Node?<T>
    ghost var nodes: seq<Node<T>>

    ghost predicate Valid()
      reads this, nodes
    {
      Threads(head, tail, nodes)
    }

    constructor ()
      ensures Valid() && nodes == []
    {
      head, tail, nodes := null, null, [];
    }

    /** bi_list_insert_node_tail; a null node is ignored. */
    method InsertTail(node: Node?<T>)
      requires Valid() && (node == null || node !in nodes)
      modifies this, nodes, node
      ensures Valid() && nodes == if node == null then old(nodes) else old(nodes) + [node]
    {
      if node == null {
        return;
      }
      Append(node);
      nodes := nodes + [node];
      forall i | 0 <= i < |nodes|
        ensures LinkedAt(nodes, i)
      {
        assert i + 1 < |nodes| ==> old(LinkedAt(nodes, i));
      }
    }

    /** The pointer surgery of bi_list_insert_node_tail, which does not look whether the node is already
        on the list. */
    method Append(node: Node<T>)
      requires Valid()
      modifies this`head, this`tail, nodes, node
      ensures tail == node && node.next == null && node.previous == old(tail)
      ensures head == if old(tail) == null then node else old(head)
      ensures old(tail) != null && old(tail) != node ==>
                old(tail).next == node && old(tail).previous == old(tail.previous)
      ensures forall n :: n in nodes && n != node && n != old(tail) ==>
                n.next == old(n.next) && n.previous == old(n.previous)
    {
      if tail != null {
        assert LinkedAt(nodes, |nodes| - 1);
        node.previous := tail;
        tail.next := node;
        tail := node;
        tail.next := null;
      } else {
        head := node;
        tail := node;
        node.next := null;
        node.previous := null;
      }
    }

    /** Appending a node that is already on the list leaves pointers that spell out no list at all. */
    method AppendTwice(node: Node<T>, ghost i: nat)
      requires Valid() && i < |nodes| && nodes[i] == node
      modifies this`head, this`tail, nodes, node
      ensures forall ns: seq<Node<T>> :: !Threads(head, tail, ns)
    {
      assert forall k :: 0 <= k < |nodes| ==> LinkedAt(nodes, k);
      Append(node);
      forall k | 0 <= k < i
        ensures nodes[k].next == nodes[k + 1]
      {
        assert nodes[k] in nodes && nodes[k] != node && nodes[k] != nodes[|nodes| - 1];
        assert old(LinkedAt(nodes, k));
      }
      forall ns: seq<Node<T>>
        ensures !Threads(head, tail, ns)
      {
        if Threads(head, tail, ns) {
          NoThread(head, tail, nodes, i, ns);
        }
      }
    }

    /** bi_list_insert_node_before: base's index i is taken by node; a null base stands for the end. */
    method InsertBefore(base: Node?<T>, node: Node?<T>, ghost i: nat)
      requires Valid() && (node == null || node !in nodes)
      requires if base == null then i == |nodes| else i < |nodes| && nodes[i] == base
      modifies this, nodes, node
      ensures Valid()
      ensures nodes == if node == null then old(nodes) else old(nodes)[..i] + [node] + old(nodes)[i..]
    {
      if node == null {
        return;
      }
      if base == null {
        InsertTail(node);
        return;
      }
      assert LinkedAt(nodes, i);
      if base.previous != null {
        assert LinkedAt(nodes, i - 1);
        var before := base.previous;
        before.next := node;
        node.next := base;
        base.previous := node;
        node.previous := before;
      } else {
        base.previous := node;
        node.next := base;
        head := node;
        node.previous := null;
      }
      nodes := nodes[..i] + [node] + nodes[i..];
      forall j | 0 <= j < |nodes|
        ensures LinkedAt(nodes, j)
      {
        if j != i {
          assert old(LinkedAt(nodes, if j < i then j else j - 1));
        }
      }
    }

    /** bi_list_remove_node: the node at index i leaves the list and keeps its own links, so a walk
        that stands on it can go on to its old neighbours. */
    method Remove(node: Node?<T>, ghost i: nat)
      requires Valid() && (node != null ==> i < |nodes| && nodes[i] == node)
      modifies this, nodes
      ensures Valid()
      ensures nodes == if node == null then old(nodes) else old(nodes)[..i] + old(nodes)[i + 1..]
      ensures node != null ==> node.next == old(node.next) && node.previous == old(node.previous)
      ensures node != null && node.next != null ==> i < |nodes| && node.next == nodes[i]
      ensures node != null && node.previous != null ==> 0 < i && node.previous == nodes[i - 1]
    {
      if node == null {
        return;
      }
      assert LinkedAt(nodes, i);
      var next, previous := node.next, node.previous;
      assert i > 0 ==> previous == nodes[i - 1] && LinkedAt(nodes, i - 1);
      assert i + 1 < |nodes| ==> next == nodes[i + 1] && LinkedAt(nodes, i + 1);
      ghost var before := nodes;
      if next == null && previous == null {
        head := null;
        tail := null;
      } else if next == null {
        tail := previous;
        previous.next := null;
      } else if previous == null {
        head := next;
        next.previous := null;
      } else {
        previous.next := next;
        next.previous := previous;
      }
      nodes := nodes[..i] + nodes[i + 1..];
      forall j | 0 <= j < |nodes|
        ensures LinkedAt(nodes, j)
      {
        var k := if j < i then j else j + 1;
        assert nodes[j] == before[k] && old(LinkedAt(nodes, k));
      }
    }
  }
}
