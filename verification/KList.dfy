/**
 The doubly linked lists of kernel/structures/list.c, with their nodes in place.
 A list is valid when the forward chain from head, the backward chain from tail
 and the owner fields all describe the same sequence of nodes.  The parameter
 `ok` of an insertion says whether a node could be allocated.
 */
module KList {
  import opened SeqOps

  class Node {
    var prev: Node?
    var next: Node?
    var data: int
    var owner: List?

    constructor (data: int, owner: List)
      ensures this.data == data && this.owner == owner && prev == null && next == null
    {
      this.data, this.owner, prev, next := data, owner, null, null;
    }
  }

  class List {
    var head: Node?
    var tail: Node?
    ghost var nodes: seq<Node>

    /** Node i is linked to its neighbours in `s` and owned by this list. */
    ghost predicate Linked(s: seq<Node>, i: int)
      requires 0 <= i < |s|
      reads s[i]
    {
      && s[i].prev == (if i == 0 then null else s[i-1])
      && s[i].next == (if i + 1 == |s| then null else s[i+1])
      && s[i].owner == this
    }

    /** head, tail and the links describe exactly the sequence s. */
    ghost predicate Describes(s: seq<Node>)
      reads this, s
    {
      && head == (if s == [] then null else s[0])
      && tail == (if s == [] then null else s[|s|-1])
      && (forall i, j :: 0 <= i < j < |s| ==> s[i] != s[j])
      && (forall i :: 0 <= i < |s| ==> Linked(s, i))
    }

    /** The links leave no choice: a list describes at most one sequence. */
    lemma DescribesOne(s: seq<Node>, t: seq<Node>)
      requires Describes(s) && Describes(t)
      ensures s == t
    {
      NotShorter(s, t);
      NotShorter(t, s);
      SamePrefix(s, t, |s|);
      assert s == s[..|s|] && t == t[..|t|];
    }

    lemma NotShorter(s: seq<Node>, t: seq<Node>)
      requires Describes(s) && Describes(t)
      ensures |t| <= |s|
    {
      if 0 < |s| <= |t| {
        SamePrefix(s, t, |s|);
        assert s[|s|-1] == s[..|s|][|s|-1] == t[..|s|][|s|-1] == t[|s|-1];
        assert Linked(s, |s| - 1) && Linked(t, |s| - 1);
      }
    }

    lemma {:induction false} SamePrefix(s: seq<Node>, t: seq<Node>, n: nat)
      requires Describes(s) && Describes(t) && n <= |s| && n <= |t|
      ensures s[..n] == t[..n]
    {
      if n > 1 {
        SamePrefix(s, t, n - 1);
        assert s[n-2] == s[..n-1][n-2] == t[..n-1][n-2] == t[n-2];
        assert Linked(s, n - 2) && Linked(t, n - 2);
        assert s[..n] == s[..n-1] + [s[n-1]] && t[..n] == t[..n-1] + [t[n-1]];
      }
    }

    ghost predicate NextOk(t: seq<Node>, k: int)
      requires 0 <= k < |t|
      reads t[k]
    {
      t[k].next == if k + 1 == |t| then null else t[k+1]
    }

    ghost predicate PrevOk(t: seq<Node>, k: int)
      requires 0 <= k < |t|
      reads t[k]
    {
      t[k].prev == if k == 0 then null else t[k-1]
    }

    /** The forward chain from head is exactly t. */
    ghost predicate Forward(t: seq<Node>)
      reads this, t
    {
      && t != [] && head == t[0]
      && forall k :: 0 <= k < |t| ==> NextOk(t, k)
    }

    /** The backward chain from tail is exactly t. */
    ghost predicate Backward(t: seq<Node>)
      reads this, t
    {
      && t != [] && tail == t[|t|-1]
      && forall k :: 0 <= k < |t| ==> PrevOk(t, k)
    }

    /** A list can describe nothing but its forward chain. */
    lemma ForwardOne(s: seq<Node>, t: seq<Node>)
      requires Describes(s) && Forward(t)
      ensures s == t
    {
      var n := if |s| < |t| then |s| else |t|;
      ForwardPrefix(s, t, n);
      assert s[n-1] == s[..n][n-1] == t[..n][n-1] == t[n-1];
      assert Linked(s, n - 1) && NextOk(t, n - 1);
      assert s == s[..n] && t == t[..n];
    }

    lemma ForwardOnly(t: seq<Node>)
      requires Forward(t)
      ensures (exists s :: Describes(s)) <==> Describes(t)
    {
      forall s | Describes(s) ensures s == t { ForwardOne(s, t); }
    }

    lemma {:induction false} ForwardPrefix(s: seq<Node>, t: seq<Node>, n: nat)
      requires Describes(s) && Forward(t) && n <= |s| && n <= |t|
      ensures s[..n] == t[..n]
    {
      if n > 1 {
        ForwardPrefix(s, t, n - 1);
        assert s[n-2] == s[..n-1][n-2] == t[..n-1][n-2] == t[n-2];
        assert Linked(s, n - 2) && NextOk(t, n - 2);
        assert s[..n] == s[..n-1] + [s[n-1]] && t[..n] == t[..n-1] + [t[n-1]];
      }
    }

    /** A list can describe nothing but its backward chain. */
    lemma BackwardOne(s: seq<Node>, t: seq<Node>)
      requires Describes(s) && Backward(t)
      ensures s == t
    {
      var n := if |s| < |t| then |s| else |t|;
      BackwardSuffix(s, t, n);
      assert s[|s|-n] == s[|s|-n..][0] == t[|t|-n..][0] == t[|t|-n];
      assert Linked(s, |s| - n) && PrevOk(t, |t| - n);
      assert s == s[|s|-n..] && t == t[|t|-n..];
    }

    lemma BackwardOnly(t: seq<Node>)
      requires Backward(t)
      ensures (exists s :: Describes(s)) <==> Describes(t)
    {
      forall s | Describes(s) ensures s == t { BackwardOne(s, t); }
    }

    lemma {:induction false} BackwardSuffix(s: seq<Node>, t: seq<Node>, n: nat)
      requires Describes(s) && Backward(t) && n <= |s| && n <= |t|
      ensures s[|s|-n..] == t[|t|-n..]
    {
      if n > 1 {
        BackwardSuffix(s, t, n - 1);
        assert s[|s|-n+1] == s[|s|-n+1..][0] == t[|t|-n+1..][0] == t[|t|-n+1];
        assert Linked(s, |s| - n + 1) && PrevOk(t, |t| - n + 1);
        assert s[|s|-n..] == [s[|s|-n]] + s[|s|-n+1..] && t[|t|-n..] == [t[|t|-n]] + t[|t|-n+1..];
      }
    }

    ghost predicate Valid()
      reads this, nodes
    {
      Describes(nodes)
    }

    constructor ()
      ensures Valid() && nodes == []
    {
      head, tail, nodes := null, null, [];
    }

    /** list_insert: append. */
    method Insert(data: int, ok: bool) returns (node: Node?)
      requires Valid()
      modifies this, nodes
      ensures Valid() && (node != null <==> ok)
      ensures ok ==> fresh(node) && node.data == data && nodes == old(nodes) + [node]
      ensures !ok ==> nodes == old(nodes)
      ensures forall n :: n in old(nodes) ==> n.data == old(n.data)
    {
      if !ok { return null; }
      node := new Node(data, this);
      assert nodes != [] ==> Linked(nodes, |nodes| - 1);
      ghost var s := nodes;
      if head == null {
        head, tail := node, node;
      } else {
        tail.next := node;
        node.prev := tail;
        tail := node;
      }
      nodes := nodes + [node];
      forall i | 0 <= i < |nodes| ensures Linked(nodes, i) {
        if i < |s| { assert old(Linked(s, i)); }
      }
    }

    /** list_push: prepend. */
    method Push(data: int, ok: bool) returns (node: Node?)
      requires Valid()
      modifies this, nodes
      ensures Valid() && (node != null <==> ok)
      ensures ok ==> fresh(node) && node.data == data && nodes == [node] + old(nodes)
      ensures !ok ==> nodes == old(nodes)
      ensures forall n :: n in old(nodes) ==> n.data == old(n.data)
    {
      if !ok { return null; }
      node := new Node(data, this);
      assert nodes != [] ==> Linked(nodes, 0);
      ghost var s := nodes;
      node.next := head;
      head := node;
      if tail == null {
        tail := node;
      } else {
        node.next.prev := node;
      }
      nodes := [node] + nodes;
      forall i | 0 <= i < |nodes| ensures Linked(nodes, i) {
        if i > 0 { assert old(Linked(s, i - 1)); }
      }
    }

    /** list_dequeue: take out a node of this list. */
    method Dequeue(node: Node, ghost i: int)
      requires Valid() && 0 <= i < |nodes| && nodes[i] == node
      modifies this, nodes
      ensures Valid() && nodes == RemoveAt(old(nodes), i)
      ensures node.prev == null && node.next == null && node.owner == null
      ensures forall n :: n in old(nodes) ==> n.data == old(n.data)
    {
      ghost var s := nodes;
      assert Linked(s, i);
      assert i > 0 ==> Linked(s, i - 1);
      assert i + 1 < |s| ==> Linked(s, i + 1);
      if head == node { head := node.next; }
      if tail == node { tail := node.prev; }
      if node.prev != null { node.prev.next := node.next; }
      if node.next != null { node.next.prev := node.prev; }
      node.prev, node.next, node.owner := null, null, null;
      nodes := RemoveAt(nodes, i);
      forall k | 0 <= k < |nodes| ensures Linked(nodes, k) {
        assert old(Linked(s, if k < i then k else k + 1));
      }
    }

    /** list_find: the first node with this data; data 0 (NULL) is never found. */
    method Find(key: int) returns (node: Node?, ghost i: int)
      requires Valid()
      ensures key == 0 ==> node == null
      ensures node != null ==> 0 <= i < |nodes| && nodes[i] == node && node.data == key
      ensures node != null ==> forall k :: 0 <= k < i ==> nodes[k].data != key
      ensures node == null && key != 0 ==> forall k :: 0 <= k < |nodes| ==> nodes[k].data != key
    {
      i := 0;
      if key == 0 { return null, i; }
      node := head;
      while node != null
        invariant 0 <= i <= |nodes| && node == (if i < |nodes| then nodes[i] else null)
        invariant forall k :: 0 <= k < i ==> nodes[k].data != key
        decreases |nodes| - i
      {
        assert Linked(nodes, i);
        if node.data == key { return; }
        node, i := node.next, i + 1;
      }
    }

    /** list_get_index: node number `index`, or NULL past the end. */
    method GetIndex(index: nat) returns (node: Node?)
      requires Valid()
      ensures node == if index < |nodes| then nodes[index] else null
    {
      node := head;
      var i := 0;
      while i < index
        invariant 0 <= i <= index && i <= |nodes| && node == (if i < |nodes| then nodes[i] else null)
      {
        if node == null { return; }
        assert Linked(nodes, i);
        node := node.next;
        i := i + 1;
      }
    }

    /** The stores of list_insert_after. */
    method LinkAfter(node: Node, data: int) returns (newNode: Node)
      modifies this`tail, node`next
      ensures fresh(newNode) && newNode.data == data && newNode.owner == this
      ensures newNode.prev == node && newNode.next == old(node.next) && node.next == newNode
      ensures tail == if old(node.next) == null then newNode else old(tail)
    {
      newNode := new Node(data, this);
      newNode.next := node.next;
      newNode.prev := node;
      node.next := newNode;
      if newNode.next == null { tail := newNode; }
    }

    /** The stores of list_insert_before. */
    method LinkBefore(node: Node, data: int) returns (newNode: Node)
      modifies this`head, node`prev
      ensures fresh(newNode) && newNode.data == data && newNode.owner == this
      ensures newNode.next == node && newNode.prev == old(node.prev) && node.prev == newNode
      ensures head == if old(node.prev) == null then newNode else old(head)
    {
      newNode := new Node(data, this);
      newNode.next := node;
      newNode.prev := node.prev;
      node.prev := newNode;
      if newNode.prev == null { head := newNode; }
    }

    /** list_insert_after does not relink the following node: the list is left
        describing a sequence, the one with the new node in place, exactly when the node
        was the last. */
    method InsertAfter(node: Node, data: int, ok: bool, ghost i: int) returns (newNode: Node?)
      requires Valid() && 0 <= i < |nodes| && nodes[i] == node
      modifies this, nodes
      ensures newNode != null <==> ok
      ensures ok ==> fresh(newNode) && newNode.data == data && nodes == InsertAt(old(nodes), i + 1, newNode)
      ensures !ok ==> nodes == old(nodes)
      ensures i == |old(nodes)| - 1 || !ok ==> Describes(nodes)
      ensures (exists s :: Describes(s)) <==> i == |old(nodes)| - 1 || !ok
    {
      if !ok { return null; }
      ghost var s := nodes;
      assert Linked(s, i);
      assert i + 1 < |s| ==> Linked(s, i + 1);
      newNode := LinkAfter(node, data);
      nodes := InsertAt(nodes, i + 1, newNode);
      forall k | 0 <= k < |nodes| ensures NextOk(nodes, k) {
        if k <= i { assert old(Linked(s, k)); }
        if k > i + 1 { assert old(Linked(s, k - 1)); }
      }
      ForwardOnly(nodes);
      if i + 1 < |s| {
        assert nodes[i+2] == s[i+1] && nodes[i+2].prev == node;
        assert !Linked(nodes, i + 2);
      } else {
        forall k | 0 <= k < |nodes| ensures Linked(nodes, k) {
          if k < |s| { assert old(Linked(s, k)); }
        }
      }
    }

    /** list_insert_before does not relink the preceding node: the list is left
        describing a sequence, the one with the new node in place, exactly when the node
        was the first. */
    method InsertBefore(node: Node, data: int, ok: bool, ghost i: int) returns (newNode: Node?)
      requires Valid() && 0 <= i < |nodes| && nodes[i] == node
      modifies this, nodes
      ensures newNode != null <==> ok
      ensures ok ==> fresh(newNode) && newNode.data == data && nodes == InsertAt(old(nodes), i, newNode)
      ensures !ok ==> nodes == old(nodes)
      ensures i == 0 || !ok ==> Describes(nodes)
      ensures (exists s :: Describes(s)) <==> i == 0 || !ok
    {
      if !ok { return null; }
      ghost var s := nodes;
      assert Linked(s, i);
      assert i > 0 ==> Linked(s, i - 1);
      newNode := LinkBefore(node, data);
      nodes := InsertAt(nodes, i, newNode);
      forall k | 0 <= k < |nodes| ensures PrevOk(nodes, k) {
        if k < i { assert old(Linked(s, k)); }
        if k > i { assert old(Linked(s, k - 1)); }
      }
      BackwardOnly(nodes);
      if i > 0 {
        assert nodes[i-1] == s[i-1] && nodes[i-1].next == node;
        assert !Linked(nodes, i - 1);
      } else {
        forall k | 0 <= k < |nodes| ensures Linked(nodes, k) {
          if k > 0 { assert old(Linked(s, k - 1)); }
        }
      }
    }
  }

  /** A third node put behind the first of two: the list describes no sequence any
      more. */
  method InsertAfterBreaks() returns (list: List)
    ensures fresh(list) && |list.nodes| == 3 && forall s :: !list.Describes(s)
  {
    list := new List();
    var first := list.Insert(1, true);
    var second := list.Insert(2, true);
    var third := list.InsertAfter(first, 3, true, 0);
  }

  /** The same in front of the second of two. */
  method InsertBeforeBreaks() returns (list: List)
    ensures fresh(list) && |list.nodes| == 3 && forall s :: !list.Describes(s)
  {
    list := new List();
    var first := list.Insert(1, true);
    var second := list.Insert(2, true);
    var third := list.InsertBefore(second, 3, true, 1);
  }
}
