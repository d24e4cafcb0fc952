/** The intrusive circular list: a sentinel node and the nodes linked to it. */
module Ring {
  import Bytes

  class Node {
    var prev: Node?
    var next: Node?

    constructor ()
    {
      prev, next := null, null;
    }

    /** Puts this node between two neighbours. */
    method Link(prev: Node, next: Node)
      requires this != prev && this != next
      modifies this, prev`next, next`prev
      ensures prev.next == this && this.prev == prev && this.next == next && next.prev == this
    {
      prev.next := this;
      this.prev := prev;
      this.next := next;
      next.prev := this;
    }

    /** Takes this node out. Its own links are undefined afterwards. */
    method Unlink()
      requires prev != null && next != null && prev != this && next != this
      modifies this, prev`next, next`prev
      ensures old(prev).next == old(next) && old(next).prev == old(prev)
    {
      prev.next := next;
      next.prev := prev;
      prev := *;
      next := *;
    }
  }

  ghost predicate Distinct(s: seq<Node>) {
    forall i, j :: 0 <= i < j < |s| ==> s[i] != s[j]
  }

  /** The list with sentinel `head`; `nodes` are the linked nodes in order. */
  class List {
    const head: Node
    ghost var nodes: seq<Node>

    /** Once around the ring: the links are mutually inverse. */
    ghost predicate Valid()
      reads this, head, nodes
    {
      && head !in nodes && Distinct(nodes)
      && (if nodes == [] then head.next == head && head.prev == head
          else
            && head.next == nodes[0] && nodes[0].prev == head
            && head.prev == nodes[|nodes| - 1] && nodes[|nodes| - 1].next == head)
      && (forall i {:trigger nodes[i].next} :: 0 <= i < |nodes| - 1 ==> nodes[i].next == nodes[i + 1])
      && (forall i {:trigger nodes[i].prev} :: 1 <= i < |nodes| ==> nodes[i].prev == nodes[i - 1])
    }

    constructor ()
      ensures Valid() && nodes == [] && fresh(head)
    {
      var n := new Node();
      head := n;
      nodes := [];
      new;
      head.prev := head;
      head.next := head;
    }

    method Head() returns (n: Node)
      requires Valid()
      ensures n == if nodes == [] then head else nodes[0]
    {
      n := head.next;
    }

    method Tail() returns (n: Node)
      requires Valid()
      ensures n == if nodes == [] then head else nodes[|nodes| - 1]
    {
      n := head.prev;
    }

    method IsEmpty() returns (b: bool)
      requires Valid()
      ensures b <==> nodes == []
    {
      assert nodes != [] ==> nodes[0] in nodes;
      var n := Head();
      b := n == head;
    }

    method LinkToHead(node: Node)
      requires Valid() && node != head && node !in nodes
      modifies this, head, nodes, node
      ensures Valid() && nodes == [node] + old(nodes)
    {
      assert nodes != [] ==> nodes[0] in nodes;
      var h := Head();
      node.Link(head, h);
      nodes := [node] + nodes;
    }

    method LinkToTail(node: Node)
      requires Valid() && node != head && node !in nodes
      modifies this, head, nodes, node
      ensures Valid() && nodes == old(nodes) + [node]
    {
      assert nodes != [] ==> nodes[|nodes| - 1] in nodes;
      var t := Tail();
      node.Link(t, head);
      nodes := nodes + [node];
    }

    /** Node.unlink on a node of this list, the `k`-th one. */
    method Unlink(node: Node, ghost k: nat)
      requires Valid() && k < |nodes| && nodes[k] == node
      modifies this, head, nodes
      ensures Valid() && nodes == old(nodes)[..k] + old(nodes)[k + 1..]
      ensures node !in nodes && node != head
    {
      assert nodes[k] in nodes;
      assert k > 0 ==> nodes[k - 1] in nodes && node.prev == nodes[k - 1] && nodes[k - 1].next == node;
      assert k + 1 < |nodes| ==> nodes[k + 1] in nodes && node.next == nodes[k + 1] && nodes[k + 1].prev == node;
      node.Unlink();
      nodes := nodes[..k] + nodes[k + 1..];
    }

    method MoveToHead(node: Node, ghost k: nat)
      requires Valid() && k < |nodes| && nodes[k] == node
      modifies this, head, nodes
      ensures Valid() && nodes == [node] + old(nodes)[..k] + old(nodes)[k + 1..]
    {
      var h := Head();
      if node != h {
        Unlink(node, k);
        LinkToHead(node);
        assert nodes == [node] + (old(nodes)[..k] + old(nodes)[k + 1..]);
      } else {
        assert k == 0;
      }
    }

    method MoveToTail(node: Node, ghost k: nat)
      requires Valid() && k < |nodes| && nodes[k] == node
      modifies this, head, nodes
      ensures Valid() && nodes == old(nodes)[..k] + old(nodes)[k + 1..] + [node]
    {
      var t := Tail();
      if node != t {
        Unlink(node, k);
        LinkToTail(node);
      } else {
        assert k == |nodes| - 1;
      }
    }
  }

  /** Moves its cursor on before it hands out a node. */
  class Iterator {
    const sentinel: Node
    var node: Node

    constructor (list: List)
      requires list.Valid()
      ensures sentinel == list.head && node == if list.nodes == [] then list.head else list.nodes[0]
    {
      sentinel := list.head;
      var h := list.Head();
      node := h;
    }

    method Next() returns (r: Node?)
      requires node != sentinel ==> node.next != null
      modifies this
      ensures if old(node) == sentinel then r == null && node == old(node) else r == old(node) && node == old(node.next)
    {
      r := node;
      if r != sentinel { node := r.next; } else { r := null; }
    }
  }

  class ReverseIterator {
    const sentinel: Node
    var node: Node

    constructor (list: List)
      requires list.Valid()
      ensures sentinel == list.head && node == if list.nodes == [] then list.head else list.nodes[|list.nodes| - 1]
    {
      sentinel := list.head;
      var t := list.Tail();
      node := t;
    }

    method Next() returns (r: Node?)
      requires node != sentinel ==> node.prev != null
      modifies this
      ensures if old(node) == sentinel then r == null && node == old(node) else r == old(node) && node == old(node.prev)
    {
      r := node;
      if r != sentinel { node := r.prev; } else { r := null; }
    }
  }

  /** The nodes that are left when the marked ones are unlinked. */
  ghost function Kept(s: seq<Node>, drop: seq<bool>): seq<Node>
    requires |s| == |drop|
  {
    if s == [] then []
    else if drop[0] then Kept(s[1..], drop[1..])
    else [s[0]] + Kept(s[1..], drop[1..])
  }

  ghost function Reverse(s: seq<Node>): seq<Node> {
    if s == [] then [] else Reverse(s[1..]) + [s[0]]
  }

  lemma BeforeIt(list: List, k: nat)
    requires list.Valid() && k < |list.nodes|
    ensures list.nodes[k] != list.head && list.nodes[k].prev == if k == 0 then list.head else list.nodes[k - 1]
  {
    assert list.nodes[k] in list.nodes;
  }

  lemma BehindIt(list: List, k: nat)
    requires list.Valid() && k < |list.nodes|
    ensures list.nodes[k] != list.head
    ensures list.nodes[k].next == if k + 1 == |list.nodes| then list.head else list.nodes[k + 1]
  {
    assert list.nodes[k] in list.nodes;
  }

  /** One turn of a forward walk: `kept` lies behind the cursor, `rest` before it. */
  method Step(list: List, it: Iterator, drop: bool, ghost kept: seq<Node>, ghost rest: seq<Node>) returns (n: Node)
    requires list.Valid() && list.nodes == kept + rest && rest != [] && it.sentinel == list.head && it.node == rest[0]
    modifies list, list.head, list.nodes, it
    ensures list.Valid() && n == rest[0] && list.nodes == kept + (if drop then [] else [n]) + rest[1..]
    ensures forall o: object :: o in list.nodes ==> o in old(list.nodes)
    ensures it.node == if |rest| == 1 then list.head else rest[1]
  {
    hide List.Valid;
    ghost var p := |kept|;
    BehindIt(list, p);
    assert list.nodes[p] == rest[0] && (p + 1 < |list.nodes| ==> list.nodes[p + 1] == rest[1]);
    var r := it.Next();
    n := r;
    assert list.nodes[..p] == kept && list.nodes[p + 1..] == rest[1..];
    assert kept + [n] + rest[1..] == kept + rest;
    if drop { list.Unlink(n, p); assert list.nodes == kept + [] + rest[1..]; }
  }

  lemma KeptFirst(kept: seq<Node>, rest: seq<Node>, drop: seq<bool>)
    requires 0 < |rest| == |drop|
    ensures kept + (if drop[0] then [] else [rest[0]]) + Kept(rest[1..], drop[1..]) == kept + Kept(rest, drop)
  {
  }

  /** The loop of a forward walk, from a cursor with `rest` before it. */
  method SweepFrom(list: List, it: Iterator, drop: seq<bool>, ghost kept: seq<Node>, ghost rest: seq<Node>)
    returns (seen: seq<Node>)
    requires list.Valid() && list.nodes == kept + rest && |drop| == |rest|
    requires it.sentinel == list.head && it.node == if rest == [] then list.head else rest[0]
    modifies list, list.head, list.nodes, it
    ensures list.Valid() && seen == rest && list.nodes == kept + Kept(rest, drop)
    decreases |rest|
  {
    hide List.Valid;
    if rest != [] { BehindIt(list, |kept|); }
    if it.node == it.sentinel {
      return [];
    }
    var n := Step(list, it, drop[0], kept, rest);
    ghost var kept' := kept + (if drop[0] then [] else [n]);
    assert forall i :: 0 <= i < |list.nodes| ==> list.nodes[i] in old(list.nodes);
    seen := SweepFrom(list, it, drop[1..], kept', rest[1..]);
    KeptFirst(kept, rest, drop);
    seen := [n] + seen;
  }

  /** A forward walk that unlinks any of the nodes it is handed still meets every node, in order. */
  method Sweep(list: List, drop: seq<bool>) returns (seen: seq<Node>)
    requires list.Valid() && |drop| == |list.nodes|
    modifies list, list.head, list.nodes
    ensures list.Valid() && seen == old(list.nodes) && list.nodes == Kept(old(list.nodes), drop)
  {
    hide List.Valid;
    var it := new Iterator(list);
    assert [] + list.nodes == list.nodes;
    seen := SweepFrom(list, it, drop, [], list.nodes);
    assert [] + Kept(old(list.nodes), drop) == Kept(old(list.nodes), drop);
  }

  /** One turn of a backward walk. */
  method StepBack(list: List, it: ReverseIterator, drop: bool, ghost rest: seq<Node>, ghost kept: seq<Node>)
    returns (n: Node)
    requires list.Valid() && list.nodes == rest + kept && rest != []
    requires it.sentinel == list.head && it.node == rest[|rest| - 1]
    modifies list, list.head, list.nodes, it
    ensures list.Valid() && n == rest[|rest| - 1]
    ensures list.nodes == rest[..|rest| - 1] + ((if drop then [] else [n]) + kept)
    ensures forall o: object :: o in list.nodes ==> o in old(list.nodes)
    ensures it.node == if |rest| == 1 then list.head else rest[|rest| - 2]
  {
    hide List.Valid;
    ghost var p := |rest| - 1;
    BeforeIt(list, p);
    var r := it.Next();
    n := r;
    assert list.nodes[..p] == rest[..p] && list.nodes[p + 1..] == kept;
    assert rest[..p] + ([n] + kept) == rest + kept;
    if drop { list.Unlink(n, p); assert list.nodes == rest[..p] + ([] + kept); }
  }

  lemma {:induction false} KeptSplit(s: seq<Node>, drop: seq<bool>)
    requires 0 < |s| == |drop|
    ensures var n := |s| - 1;
            Kept(s, drop) == Kept(s[..n], drop[..n]) + (if drop[n] then [] else [s[n]])
            && Reverse(s) == [s[n]] + Reverse(s[..n])
  {
    if |s| > 1 {
      var n := |s| - 1;
      KeptSplit(s[1..], drop[1..]);
      assert s[1..][..n - 1] == s[..n][1..] && drop[1..][..n - 1] == drop[..n][1..];
    } else {
      assert s[1..] == [] && s[..0] == [];
    }
  }

  /** The nodes whose marks are not set, in order. */
  lemma {:induction false} KeptWhen(s: seq<Node>, drop: seq<bool>) returns (idx: seq<nat>)
    requires |s| == |drop|
    ensures Bytes.Picks(idx, Kept(s, drop), s) && Bytes.Marks(idx, Left(drop))
    decreases |s|
  {
    hide Kept;
    hide Reverse;
    hide Left;
    hide Bytes.Picks;
    hide Bytes.Marks;
    if s == [] {
      NoneKept();
      idx := [];
      NonePicked(s);
      assert Left(drop) == [];
    } else {
      var n := |s| - 1;
      var front := KeptWhen(s[..n], drop[..n]);
      KeptStep(s, drop);
      LeftFront(drop, n);
      Bytes.PicksMore(front, Kept(s[..n], drop[..n]), s[..n], s[n], !drop[n]);
      Bytes.MarksMore(front, Left(drop));
      idx := if drop[n] then front else front + [n];
    }
  }

  lemma {:induction false} KeptStep(s: seq<Node>, drop: seq<bool>)
    requires 0 < |s| == |drop|
    ensures var n := |s| - 1;
            s == s[..n] + [s[n]]
            && Kept(s, drop) == if drop[n] then Kept(s[..n], drop[..n]) else Kept(s[..n], drop[..n]) + [s[n]]
  {
    hide Kept;
    hide Reverse;
    KeptSplit(s, drop);
    var n := |s| - 1;
    assert Kept(s[..n], drop[..n]) + [] == Kept(s[..n], drop[..n]);
  }

  /** Which nodes are not marked. */
  function Left(drop: seq<bool>): (r: seq<bool>)
    ensures |r| == |drop| && forall i :: 0 <= i < |r| ==> (r[i] <==> !drop[i])
  {
    seq(|drop|, i requires 0 <= i < |drop| => !drop[i])
  }

  lemma LeftFront(drop: seq<bool>, n: nat)
    requires n <= |drop|
    ensures Left(drop)[..n] == Left(drop[..n]) && forall i :: 0 <= i < |drop| ==> (Left(drop)[i] <==> !drop[i])
  {
  }

  lemma NonePicked(s: seq<Node>)
    ensures Bytes.Picks([], [], s) && Bytes.Marks([], [])
  {
  }

  lemma {:induction false} ReverseAt(s: seq<Node>, k: nat)
    requires k < |s|
    ensures |Reverse(s)| == |s| && Reverse(s)[k] == s[|s| - 1 - k]
  {
    if |s| == 1 {
      assert s[1..] == [];
    } else {
      ReverseAt(s[1..], if k < |s| - 1 then k else 0);
    }
  }

  lemma NoneKept()
    ensures Kept([], []) == [] && Reverse([]) == []
  {
  }

  lemma {:induction false} KeptLast(rest: seq<Node>, drop: seq<bool>, kept: seq<Node>)
    requires 0 < |rest| == |drop|
    ensures var p := |rest| - 1;
            Kept(rest[..p], drop[..p]) + ((if drop[p] then [] else [rest[p]]) + kept) == Kept(rest, drop) + kept
            && Reverse(rest) == [rest[p]] + Reverse(rest[..p])
  {
    hide Kept;
    hide Reverse;
    KeptSplit(rest, drop);
  }

  /** The loop of a backward walk, from a cursor with `rest` before it. */
  method SweepBackFrom(list: List, it: ReverseIterator, drop: seq<bool>, ghost rest: seq<Node>, ghost kept: seq<Node>)
    returns (seen: seq<Node>)
    requires list.Valid() && list.nodes == rest + kept && |drop| == |rest|
    requires it.sentinel == list.head && it.node == if rest == [] then list.head else rest[|rest| - 1]
    modifies list, list.head, list.nodes, it
    ensures list.Valid() && seen == Reverse(rest) && list.nodes == Kept(rest, drop) + kept
    decreases |rest|
  {
    hide List.Valid;
    hide Kept;
    hide Reverse;
    NoneKept();
    var p := |drop| - 1;
    if rest != [] { BeforeIt(list, p); }
    if it.node == it.sentinel {
      return [];
    }
    var n := StepBack(list, it, drop[p], rest, kept);
    KeptLast(rest, drop, kept);
    ghost var kept' := (if drop[p] then [] else [n]) + kept;
    assert forall i :: 0 <= i < |list.nodes| ==> list.nodes[i] in old(list.nodes);
    seen := SweepBackFrom(list, it, drop[..p], rest[..p], kept');
    seen := [n] + seen;
  }

  /** And so does a backward walk, in the opposite order. */
  method SweepBack(list: List, drop: seq<bool>) returns (seen: seq<Node>)
    requires list.Valid() && |drop| == |list.nodes|
    modifies list, list.head, list.nodes
    ensures list.Valid() && seen == Reverse(old(list.nodes)) && list.nodes == Kept(old(list.nodes), drop)
  {
    var it := new ReverseIterator(list);
    assert list.nodes + [] == list.nodes;
    seen := SweepBackFrom(list, it, drop, list.nodes, []);
    assert Kept(old(list.nodes), drop) + [] == Kept(old(list.nodes), drop);
  }
}
