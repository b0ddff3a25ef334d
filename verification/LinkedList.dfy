/** adlist.c: the doubly linked list behind every queue of the servers, as a sequence of its nodes. */
module LinkedLists {
  import opened Options

  class Node<T> {
    var prev: Node?<T>
    var next: Node?<T>
    const value: T

    constructor (value: T)
      ensures this.value == value
    {
      this.value := value;
      prev, next := null, null;
    }
  }

  /** The node at `i`; beyond either end there is none. */
  ghost function At<T>(nodes: seq<Node<T>>, i: int): Node?<T> {
    if 0 <= i < |nodes| then nodes[i] else null
  }

  ghost predicate Distinct<T>(nodes: seq<Node<T>>) {
    forall i, j :: 0 <= i < j < |nodes| ==> nodes[i] != nodes[j]
  }

  ghost predicate InPlace<T>(nodes: seq<Node<T>>, i: nat)
    requires i < |nodes|
    reads nodes
  {
    nodes[i].prev == At(nodes, i - 1) && nodes[i].next == At(nodes, i + 1)
  }

  ghost predicate Linked<T>(nodes: seq<Node<T>>)
    reads nodes
  {
    forall i :: 0 <= i < |nodes| ==> InPlace(nodes, i)
  }

  lemma Differ<T>(nodes: seq<Node<T>>, i: nat, j: nat)
    requires Distinct(nodes) && i < |nodes| && j < |nodes| && i != j
    ensures nodes[i] != nodes[j]
  {
  }

  lemma DistinctWith<T>(nodes: seq<Node<T>>, k: nat, node: Node<T>)
    requires Distinct(nodes) && node !in nodes && k <= |nodes|
    ensures Distinct(nodes[..k] + [node] + nodes[k..])
  {
  }

  lemma DistinctWithout<T>(nodes: seq<Node<T>>, k: nat)
    requires Distinct(nodes) && k < |nodes|
    ensures Distinct(nodes[..k] + nodes[k + 1..])
  {
  }

  function ValuesOf<T>(nodes: seq<Node<T>>): (vs: seq<T>)
    ensures |vs| == |nodes| && forall i :: 0 <= i < |nodes| ==> vs[i] == nodes[i].value
  {
    seq(|nodes|, i requires 0 <= i < |nodes| => nodes[i].value)
  }

  lemma ValuesWith<T>(nodes: seq<Node<T>>, k: nat, node: Node<T>)
    requires k <= |nodes|
    ensures ValuesOf(nodes[..k] + [node] + nodes[k..]) == ValuesOf(nodes)[..k] + [node.value] + ValuesOf(nodes)[k..]
  {
    hide ValuesOf;
  }

  // ----- Iteration -----

  /** listIter: the node to return next, and the direction. */
  class Iter<T> {
    var next: Node?<T>
    const fromHead: bool

    constructor (next: Node?<T>, fromHead: bool)
      ensures this.next == next && this.fromHead == fromHead
    {
      this.next, this.fromHead := next, fromHead;
    }
  }

  /** The nodes that are not to be deleted, in order. */
  function Kept<T>(nodes: seq<Node<T>>, doomed: Node<T> -> bool): seq<Node<T>> {
    if nodes == [] then []
    else if doomed(nodes[0]) then Kept(nodes[1..], doomed)
    else [nodes[0]] + Kept(nodes[1..], doomed)
  }

  lemma {:induction false} KeptConcat<T>(a: seq<Node<T>>, b: seq<Node<T>>, doomed: Node<T> -> bool)
    ensures Kept(a + b, doomed) == Kept(a, doomed) + Kept(b, doomed)
    decreases a
  {
    if a == [] {
      assert a + b == b;
    } else {
      assert (a + b)[1..] == a[1..] + b;
      KeptConcat(a[1..], b, doomed);
    }
  }

  lemma {:induction false} KeptOne<T>(node: Node<T>, doomed: Node<T> -> bool)
    ensures Kept([node], doomed) == if doomed(node) then [] else [node]
  {
    assert [node][1..] == [];
  }

  lemma {:induction false} KeptNone<T>(nodes: seq<Node<T>>, doomed: Node<T> -> bool)
    requires forall i :: 0 <= i < |nodes| ==> doomed(nodes[i])
    ensures Kept(nodes, doomed) == []
    decreases nodes
  {
    if nodes != [] {
      KeptNone(nodes[1..], doomed);
    }
  }

  lemma {:induction false} KeptAre<T>(nodes: seq<Node<T>>, doomed: Node<T> -> bool, node: Node<T>)
    ensures node in Kept(nodes, doomed) <==> node in nodes && !doomed(node)
    decreases nodes
  {
    if nodes != [] {
      KeptAre(nodes[1..], doomed, node);
    }
  }

  /** One more node after `k`, from the front. */
  lemma {:induction false} KeptNext<T>(all: seq<Node<T>>, doomed: Node<T> -> bool, k: nat)
    requires k < |all|
    ensures Kept(all[..k + 1], doomed) == Kept(all[..k], doomed) + if doomed(all[k]) then [] else [all[k]]
  {
    hide Kept;
    assert all[..k + 1] == all[..k] + [all[k]];
    KeptConcat(all[..k], [all[k]], doomed);
    KeptOne(all[k], doomed);
  }

  /** One more node before `k`, from the back. */
  lemma {:induction false} KeptBefore<T>(all: seq<Node<T>>, doomed: Node<T> -> bool, k: nat)
    requires 0 < k <= |all|
    ensures Kept(all[k - 1..], doomed) == (if doomed(all[k - 1]) then [] else [all[k - 1]]) + Kept(all[k..], doomed)
  {
    hide Kept;
    assert all[k - 1..] == [all[k - 1]] + all[k..];
    KeptConcat([all[k - 1]], all[k..], doomed);
    KeptOne(all[k - 1], doomed);
  }

  /** The node that an iteration visits after `k` others; none after the last. */
  ghost function Visited<T>(all: seq<Node<T>>, fromHead: bool, k: nat): Node?<T> {
    At(all, if fromHead then k else |all| - 1 - k)
  }

  /** What is left when `k` nodes have been visited, and the doomed ones among them deleted. */
  ghost function SweptNodes<T>(all: seq<Node<T>>, doomed: Node<T> -> bool, fromHead: bool, k: nat): seq<Node<T>>
    requires k <= |all|
  {
    if fromHead then Kept(all[..k], doomed) + all[k..] else all[..|all| - k] + Kept(all[|all| - k..], doomed)
  }

  /** Where in what is left the next node is. */
  ghost function SweptAt<T>(all: seq<Node<T>>, doomed: Node<T> -> bool, fromHead: bool, k: nat): int
    requires k <= |all|
  {
    if fromHead then |Kept(all[..k], doomed)| else |all| - k - 1
  }

  lemma {:induction false} SweepForward<T>(all: seq<Node<T>>, doomed: Node<T> -> bool, k: nat)
    requires k < |all|
    ensures
      var ns, at := SweptNodes(all, doomed, true, k), SweptAt(all, doomed, true, k);
      && 0 <= at < |ns| && At(ns, at + 1) == At(all, k + 1)
      && SweptNodes(all, doomed, true, k + 1) == if doomed(all[k]) then ns[..at] + ns[at + 1..] else ns
  {
    hide Kept;
    KeptNext(all, doomed, k);
  }

  lemma {:induction false} SweepBackward<T>(all: seq<Node<T>>, doomed: Node<T> -> bool, k: nat)
    requires k < |all|
    ensures
      var ns, at := SweptNodes(all, doomed, false, k), SweptAt(all, doomed, false, k);
      && 0 <= at < |ns| && At(ns, at - 1) == At(all, |all| - 2 - k)
      && SweptNodes(all, doomed, false, k + 1) == if doomed(all[|all| - 1 - k]) then ns[..at] + ns[at + 1..] else ns
  {
    hide Kept;
    KeptBefore(all, doomed, |all| - k);
  }

  lemma {:induction false} SweepEnds<T>(all: seq<Node<T>>, doomed: Node<T> -> bool, fromHead: bool)
    ensures SweptNodes(all, doomed, fromHead, 0) == all && SweptNodes(all, doomed, fromHead, |all|) == Kept(all, doomed)
  {
    assert all[..|all|] == all[0..] == all && all[..0] == all[|all|..] == [];
  }

  lemma {:induction false} NextToVisit<T>(all: seq<Node<T>>, doomed: Node<T> -> bool, fromHead: bool, k: nat)
    requires k <= |all|
    ensures At(SweptNodes(all, doomed, fromHead, k), SweptAt(all, doomed, fromHead, k)) == Visited(all, fromHead, k)
  {
    hide Kept;
  }

  /** The first `k` values in the order of the iteration. */
  function InOrder<T>(vs: seq<T>, fromHead: bool, k: nat): seq<T>
    requires k <= |vs|
  {
    if fromHead then vs[..k] else seq(k, i requires 0 <= i < k => vs[|vs| - 1 - i])
  }

  lemma InOrderNext<T>(all: seq<Node<T>>, fromHead: bool, k: nat)
    requires k < |all|
    ensures InOrder(ValuesOf(all), fromHead, k + 1) == InOrder(ValuesOf(all), fromHead, k) + [Visited(all, fromHead, k).value]
  {
    hide ValuesOf;
  }

  /** What listDup makes of the values; None when the dup method fails on one of them. */
  function Duplicates<T>(dup: Option<T -> Option<T>>, s: seq<T>): Option<seq<T>> {
    if s == [] then Some([])
    else
      var n := |s| - 1;
      match Duplicates(dup, s[..n])
      case None => None
      case Some(copies) =>
        var copied := if dup.Some? then dup.value(s[n]) else Some(s[n]);
        if copied.None? then None else Some(copies + [copied.value])
  }

  /** Without a dup method it is the same values; and one failure is enough. */
  lemma {:induction false} DuplicatesAre<T>(dup: Option<T -> Option<T>>, s: seq<T>)
    ensures dup.None? ==> Duplicates(dup, s) == Some(s)
    ensures dup.Some? ==>
      var r := Duplicates(dup, s);
      if forall i :: 0 <= i < |s| ==> dup.value(s[i]).Some? then
        r.Some? && |r.value| == |s| && forall i :: 0 <= i < |s| ==> dup.value(s[i]) == Some(r.value[i])
      else r.None?
  {
    if s != [] {
      var n := |s| - 1;
      DuplicatesAre(dup, s[..n]);
      assert s == s[..n] + [s[n]];
    }
  }

  lemma {:induction false} DuplicatesFails<T>(dup: Option<T -> Option<T>>, s: seq<T>, k: nat)
    requires k <= |s| && Duplicates(dup, s[..k]).None?
    ensures Duplicates(dup, s).None?
    decreases |s|
  {
    if k == |s| {
      assert s[..k] == s;
    } else {
      var n := |s| - 1;
      assert s[..n][..k] == s[..k];
      DuplicatesFails(dup, s[..n], k);
    }
  }

  class List<T> {
    var head: Node?<T>
    var tail: Node?<T>
    var len: nat

    /** The nodes, first to last. */
    ghost var nodes: seq<Node<T>>

    ghost predicate Valid()
      reads this, nodes
    {
      head == At(nodes, 0) && tail == At(nodes, |nodes| - 1) && len == |nodes| && Linked(nodes) && Distinct(nodes)
    }

    ghost function Values(): seq<T>
      reads this`nodes
    {
      ValuesOf(nodes)
    }

    /** listCreate. */
    constructor ()
      ensures Valid() && nodes == []
    {
      head, tail, len, nodes := null, null, 0, [];
    }

    /** listAddNodeHead. */
    method AddNodeHead(value: T)
      requires Valid()
      modifies this, nodes
      ensures Valid() && Values() == [value] + old(Values())
      ensures |nodes| == |old(nodes)| + 1 && fresh(nodes[0]) && nodes[1..] == old(nodes)
    {
      hide Distinct;
      ghost var was := nodes;
      var node := new Node(value);
      if len == 0 {
        head, tail := node, node;
        node.prev, node.next := null, null;
      } else {
        node.prev := null;
        node.next := head;
        head.prev := node;
        head := node;
      }
      len := len + 1;
      nodes := [node] + nodes;
      forall i | 0 <= i < |nodes| ensures InPlace(nodes, i) {
        if i > 0 {
          assert old(InPlace(was, i - 1)) && nodes[i] == was[i - 1];
          if i > 1 {
            Differ(was, i - 1, 0);
          }
        }
      }
      assert nodes == was[..0] + [node] + was[0..];
      DistinctWith(was, 0, node);
      ValuesWith(was, 0, node);
    }

    /** listAddNodeTail. */
    method AddNodeTail(value: T)
      requires Valid()
      modifies this, nodes
      ensures Valid() && Values() == old(Values()) + [value]
      ensures |nodes| == |old(nodes)| + 1 && nodes[..|nodes| - 1] == old(nodes) && fresh(nodes[|nodes| - 1])
    {
      hide Distinct;
      ghost var was := nodes;
      var node := new Node(value);
      if len == 0 {
        head, tail := node, node;
        node.prev, node.next := null, null;
      } else {
        node.prev := tail;
        node.next := null;
        tail.next := node;
        tail := node;
      }
      len := len + 1;
      nodes := nodes + [node];
      forall i | 0 <= i < |nodes| ensures InPlace(nodes, i) {
        if i < |was| {
          assert old(InPlace(was, i)) && nodes[i] == was[i];
          if i < |was| - 1 {
            Differ(was, i, |was| - 1);
          }
        }
      }
      assert nodes == was[..|was|] + [node] + was[|was|..];
      DistinctWith(was, |was|, node);
      ValuesWith(was, |was|, node);
    }

    /** The second half of listInsertNode: the neighbours of a node that already points at them. */
    method LinkNeighbours(node: Node<T>, ghost at: nat)
      requires Linked(nodes) && Distinct(nodes) && len == |nodes| && node !in nodes && at <= |nodes| != 0
      requires node.prev == At(nodes, at - 1) && node.next == At(nodes, at)
      requires head == (if at == 0 then node else At(nodes, 0)) && tail == if at == |nodes| then node else At(nodes, |nodes| - 1)
      modifies this, nodes
      ensures Valid() && nodes == old(nodes)[..at] + [node] + old(nodes)[at..]
    {
      hide Distinct;
      ghost var was := nodes;
      if at > 0 && at < |was| {
        Differ(was, at - 1, at);
      }
      if node.prev != null {
        node.prev.next := node;
      }
      if node.next != null {
        node.next.prev := node;
      }
      len := len + 1;
      nodes := was[..at] + [node] + was[at..];
      forall i | 0 <= i < |nodes| ensures InPlace(nodes, i) {
        if i != at {
          var j := if i < at then i else i - 1;
          assert old(InPlace(was, j)) && nodes[i] == was[j];
          if j != at - 1 && at > 0 {
            Differ(was, j, at - 1);
          }
          if j != at && at < |was| {
            Differ(was, j, at);
          }
        }
      }
      DistinctWith(was, at, node);
    }

    /** listInsertNode, before or after the node at `k`. */
    method InsertNode(oldNode: Node<T>, value: T, after: bool, ghost k: nat)
      requires Valid() && k < |nodes| && oldNode == nodes[k]
      modifies this, nodes
      ensures Valid()
      ensures var at := if after then k + 1 else k; Values() == old(Values())[..at] + [value] + old(Values())[at..]
    {
      hide Distinct;
      ghost var was := nodes;
      ghost var at := if after then k + 1 else k;
      assert InPlace(was, k);
      OnlyEnd(k);
      var node := new Node(value);
      if after {
        node.prev := oldNode;
        node.next := oldNode.next;
        if tail == oldNode {
          tail := node;
        }
      } else {
        node.next := oldNode;
        node.prev := oldNode.prev;
        if head == oldNode {
          head := node;
        }
      }
      LinkNeighbours(node, at);
      ValuesWith(was, at, node);
    }

    /** Only the first node is the head, and only the last one the tail. */
    lemma OnlyEnd(k: nat)
      requires Valid() && k < |nodes|
      ensures nodes[k] == head <==> k == 0
      ensures nodes[k] == tail <==> k == |nodes| - 1
    {
      hide Linked;
      if k > 0 {
        Differ(nodes, k, 0);
      }
      if k < |nodes| - 1 {
        Differ(nodes, k, |nodes| - 1);
      }
    }

    /** listDelNode of the node at `k`. */
    method DelNode(node: Node<T>, ghost k: nat)
      requires Valid() && k < |nodes| && node == nodes[k]
      modifies this, nodes
      ensures Valid() && nodes == old(nodes)[..k] + old(nodes)[k + 1..]
    {
      hide Distinct;
      ghost var was := nodes;
      assert InPlace(was, k);
      if k > 0 {
        Differ(was, k - 1, k);
      }
      if k + 1 < |was| {
        Differ(was, k + 1, k);
      }
      if node.prev != null {
        node.prev.next := node.next;
      } else {
        head := node.next;
      }
      if node.next != null {
        node.next.prev := node.prev;
      } else {
        tail := node.prev;
      }
      len := len - 1;
      nodes := was[..k] + was[k + 1..];
      forall i | 0 <= i < |nodes| ensures InPlace(nodes, i) {
        var j := if i < k then i else i + 1;
        assert old(InPlace(was, j)) && nodes[i] == was[j];
        if j != k - 1 && k > 0 {
          Differ(was, j, k - 1);
        }
        if j != k + 1 && k + 1 < |was| {
          Differ(was, j, k + 1);
        }
      }
      DistinctWithout(was, k);
    }

    /** listRotate: the last node becomes the first. */
    method Rotate()
      requires Valid()
      modifies this, nodes
      ensures Valid()
      ensures nodes == if old(nodes) == [] then [] else [old(nodes)[|old(nodes)| - 1]] + old(nodes)[..|old(nodes)| - 1]
    {
      hide Distinct;
      ghost var was := nodes;
      ghost var n := |was| - 1;
      if len <= 1 {
        assert |nodes| == 1 ==> nodes == [nodes[0]] + nodes[..0];
        return;
      }
      assert InPlace(was, n) && InPlace(was, n - 1) && InPlace(was, 0);
      Differ(was, n, n - 1);
      Differ(was, n, 0);
      var last := tail;
      tail := last.prev;
      tail.next := null;
      head.prev := last;
      last.prev := null;
      last.next := head;
      head := last;
      nodes := [last] + was[..n];
      forall i | 0 <= i < |nodes| ensures InPlace(nodes, i) {
        if i > 0 {
          assert old(InPlace(was, i - 1)) && nodes[i] == was[i - 1];
          Differ(was, i - 1, n);
          if i - 1 > 0 {
            Differ(was, i - 1, 0);
          }
          if i - 1 < n - 1 {
            Differ(was, i - 1, n - 1);
          }
        }
      }
      RotatedIsDistinct(was);
    }

    static lemma RotatedIsDistinct(nodes: seq<Node<T>>)
      requires Distinct(nodes) && nodes != []
      ensures Distinct([nodes[|nodes| - 1]] + nodes[..|nodes| - 1])
    {
    }

    static lemma JoinedIsDistinct(a: seq<Node<T>>, b: seq<Node<T>>)
      requires Distinct(a) && Distinct(b) && forall i, j :: 0 <= i < |a| && 0 <= j < |b| ==> a[i] != b[j]
      ensures Distinct(a + b)
    {
    }

    ghost predicate Apart(o: List<T>)
      reads this`nodes, o`nodes
    {
      forall i, j :: 0 <= i < |nodes| && 0 <= j < |o.nodes| ==> nodes[i] != o.nodes[j]
    }

    lemma ApartAt(o: List<T>, i: nat, j: nat)
      requires Apart(o) && i < |nodes| && j < |o.nodes|
      ensures nodes[i] != o.nodes[j]
    {
    }

    /** listJoin: the nodes of `o` move behind those of this list, and `o` is left empty. */
    method Join(o: List<T>)
      requires Valid() && o.Valid() && o != this && Apart(o)
      modifies this, nodes, o, o.nodes
      ensures Valid() && o.Valid() && o.nodes == []
      ensures nodes == old(nodes) + old(o.nodes)
    {
      JoinedIsDistinct(nodes, o.nodes);
      ghost var a, b := nodes, o.nodes;
      forall i, j | 0 <= i < |a| && 0 <= j < |b| ensures a[i] != b[j] {
        ApartAt(o, i, j);
      }
      hide Distinct, Apart;
      if o.head != null {
        o.head.prev := tail;
      }
      if tail != null {
        tail.next := o.head;
      } else {
        head := o.head;
      }
      if o.tail != null {
        tail := o.tail;
      }
      len := len + o.len;
      nodes := a + b;
      o.head, o.tail, o.len, o.nodes := null, null, 0, [];
      forall i | 0 <= i < |nodes| ensures InPlace(nodes, i) {
        if i < |a| {
          assert old(InPlace(a, i)) && nodes[i] == a[i];
          if i < |a| - 1 {
            Differ(a, i, |a| - 1);
          }
        } else {
          assert old(InPlace(b, i - |a|)) && nodes[i] == b[i - |a|];
          if i > |a| {
            Differ(b, i - |a|, 0);
          }
        }
      }
    }

    /** listIndex: from the head, or with a negative index from the tail. */
    method Index(index: int) returns (n: Node?<T>)
      requires Valid()
      ensures n == At(nodes, if index < 0 then |nodes| + index else index)
    {
      hide Distinct;
      if index < 0 {
        var left := -index - 1;
        n := tail;
        while left > 0 && n != null
          invariant 0 <= left && n == At(nodes, |nodes| + index + left)
        {
          assert InPlace(nodes, |nodes| + index + left);
          n := n.prev;
          left := left - 1;
        }
      } else {
        var left := index;
        n := head;
        while left > 0 && n != null
          invariant 0 <= left && n == At(nodes, index - left)
        {
          assert InPlace(nodes, index - left);
          n := n.next;
          left := left - 1;
        }
      }
    }

    /** listDup: another list of the same values, or of what `dup` makes of them; none if it fails on one of them. */
    method Dup(dup: Option<T -> Option<T>>) returns (copy: List?<T>)
      requires Valid()
      ensures Valid() && (copy == null <==> Duplicates(dup, Values()).None?)
      ensures copy != null ==> copy.Valid() && fresh(copy) && fresh(copy.nodes) && Some(copy.Values()) == Duplicates(dup, Values())
    {
      hide Distinct;
      var list := new List();
      var next := head;
      ghost var k := 0;
      while next != null
        invariant Valid() && list.Valid() && fresh(list) && fresh(list.nodes)
        invariant k <= |nodes| && next == At(nodes, k) && Duplicates(dup, Values()[..k]) == Some(list.Values())
        decreases |nodes| - k
      {
        var node := next;
        assert InPlace(nodes, k);
        assert Values()[..k + 1][..k] == Values()[..k] && Values()[..k + 1][k] == node.value;
        var value := if dup.Some? then dup.value(node.value) else Some(node.value);
        if value.None? {
          DuplicatesFails(dup, Values(), k + 1);
          return null;
        }
        next := node.next;
        list.AddNodeTail(value.value);
        k := k + 1;
      }
      assert Values()[..k] == Values();
      copy := list;
    }

    /** listGetIterator, and the rewinds. */
    method GetIterator(fromHead: bool) returns (iter: Iter<T>)
      requires Valid()
      ensures fresh(iter) && iter.fromHead == fromHead && iter.next == At(nodes, if fromHead then 0 else |nodes| - 1)
    {
      hide Distinct, Linked;
      iter := new Iter(if fromHead then head else tail, fromHead);
    }

    /** listNext: the node the iterator is at, which then moves on in its direction. */
    method ListNext(iter: Iter<T>, ghost k: int) returns (current: Node?<T>)
      requires Valid() && iter.next == At(nodes, k)
      modifies iter
      ensures Valid() && current == At(nodes, k)
      ensures iter.next == if current == null then null else At(nodes, if iter.fromHead then k + 1 else k - 1)
    {
      hide Distinct;
      current := iter.next;
      if current != null {
        assert InPlace(nodes, k);
        iter.next := if iter.fromHead then current.next else current.prev;
      }
    }

    /** `k` nodes of `all` have been visited, and the doomed ones among them deleted. */
    ghost predicate InSweep(all: seq<Node<T>>, doomed: Node<T> -> bool, iter: Iter<T>, k: nat)
      reads this, nodes, iter
    {
      && Valid() && k <= |all| && nodes == SweptNodes(all, doomed, iter.fromHead, k)
      && iter.next == Visited(all, iter.fromHead, k)
      && forall i :: 0 <= i < |nodes| ==> nodes[i] in all
    }

    /** One turn of a listNext loop: the node is visited, and deleted if it is doomed. */
    method Visit(iter: Iter<T>, doomed: Node<T> -> bool, ghost all: seq<Node<T>>, ghost k: nat) returns (current: Node?<T>)
      requires InSweep(all, doomed, iter, k)
      modifies this, all, iter
      ensures current == Visited(all, iter.fromHead, k)
      ensures if current == null then k == |all| && Valid() && nodes == Kept(all, doomed)
              else k < |all| && InSweep(all, doomed, iter, k + 1)
    {
      hide Distinct, Linked, Kept, SweptNodes, SweptAt, Valid;
      ghost var at := SweptAt(all, doomed, iter.fromHead, k);
      NextToVisit(all, doomed, iter.fromHead, k);
      SweepEnds(all, doomed, iter.fromHead);
      current := ListNext(iter, at);
      if current != null {
        if iter.fromHead {
          SweepForward(all, doomed, k);
        } else {
          SweepBackward(all, doomed, k);
        }
        if doomed(current) {
          DelNode(current, at);
        }
      }
    }

    lemma {:induction false} SweepStarts(doomed: Node<T> -> bool, iter: Iter<T>)
      requires Valid() && iter.next == At(nodes, if iter.fromHead then 0 else |nodes| - 1)
      ensures InSweep(nodes, doomed, iter, 0)
    {
      hide Distinct, Linked, Kept, SweptNodes;
      SweepEnds(nodes, doomed, iter.fromHead);
    }

    /** The loop itself, with an iterator at one end of the list. */
    method SweepWith(iter: Iter<T>, doomed: Node<T> -> bool, ghost all: seq<Node<T>>) returns (visited: seq<T>)
      requires InSweep(all, doomed, iter, 0)
      modifies this, all, iter
      ensures Valid() && nodes == Kept(all, doomed)
      ensures visited == InOrder(ValuesOf(all), iter.fromHead, |all|)
    {
      hide Kept, SweptNodes, InOrder, ValuesOf, Visited, List.Valid, List.InSweep;
      ghost var k := 0;
      visited := [];
      NoneVisited(ValuesOf(all), iter.fromHead);
      var current := Visit(iter, doomed, all, k);
      while current != null
        invariant k <= |all| && current == Visited(all, iter.fromHead, k)
        invariant if current == null then k == |all| && Valid() && nodes == Kept(all, doomed)
                  else k < |all| && InSweep(all, doomed, iter, k + 1)
        invariant visited == InOrder(ValuesOf(all), iter.fromHead, k)
        decreases |all| - k
      {
        InOrderNext(all, iter.fromHead, k);
        visited := visited + [current.value];
        k := k + 1;
        current := Visit(iter, doomed, all, k);
      }
    }

    static lemma NoneVisited(values: seq<T>, fromHead: bool)
      ensures InOrder(values, fromHead, 0) == []
    {
    }

    /**
     A listNext loop, in either direction, that deletes any of the nodes it is at: every node is visited
     once, in order, and exactly the others are left, in their order.
     */
    method Sweep(doomed: Node<T> -> bool, fromHead: bool) returns (visited: seq<T>)
      requires Valid()
      modifies this, nodes
      ensures Valid() && nodes == Kept(old(nodes), doomed)
      ensures visited == InOrder(old(Values()), fromHead, |old(nodes)|)
    {
      hide Kept, SweptNodes, InOrder, Visited, List.Valid, List.InSweep;
      var iter := GetIterator(fromHead);
      SweepStarts(doomed, iter);
      visited := SweepWith(iter, doomed, nodes);
    }

    /** What handleClientsWithPendingWrites does to its list: every node is visited and deleted. */
    method Drain() returns (visited: seq<T>)
      requires Valid()
      modifies this, nodes
      ensures Valid() && nodes == [] && visited == old(Values())
    {
      ghost var all := nodes;
      hide Valid, Kept;
      var doomed: Node<T> -> bool := node => true;
      visited := Sweep(doomed, true);
      KeptNone(all, doomed);
      assert InOrder(ValuesOf(all), true, |all|) == ValuesOf(all);
    }
  }
}
