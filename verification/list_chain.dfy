/** The node graph behind `LinkedList` (src/components/list-page/list-page.tsx).

    JavaScript nodes are heap objects joined by `next` references; here they
    live in an arena, a sequence indexed by node identity, and a reference is
    an arena index. Nodes are never removed from the arena: a node the list
    unlinks simply becomes unreachable, as it becomes garbage in JavaScript.

    The abstraction: following `next` from `head` visits a chain of distinct
    nodes, its last node is `tail`, and the values met on the way are the
    list's elements (what `toArray` returns). */
module ListChain {
  import opened Types

  /** A `LinkedListNode`: its value and the reference to its successor. */
  datatype Node<T> = Node(value: T, next: Option<nat>)

  /** A `LinkedList`: the arena of all nodes ever created, and the `head`
      and `tail` references. */
  datatype LinkedList<T> = LinkedList(nodes: seq<Node<T>>, head: Option<nat>, tail: Option<nat>)

  /** The node `x` with its `next` reference replaced (`x.next = next`). */
  function SetNext<T>(nodes: seq<Node<T>>, x: nat, next: Option<nat>): seq<Node<T>>
    requires x < |nodes|
  {
    nodes[x := Node(nodes[x].value, next)]
  }

  function First(p: seq<nat>): Option<nat> {
    if p == [] then None else Some(p[0])
  }

  function Last(p: seq<nat>): Option<nat> {
    if p == [] then None else Some(p[|p| - 1])
  }

  /** The reference that follows position `k` of the chain `p`. */
  function After(p: seq<nat>, k: nat): Option<nat> {
    if k + 1 < |p| then Some(p[k + 1]) else None
  }

  ghost predicate InArena<T>(nodes: seq<Node<T>>, p: seq<nat>) {
    forall k :: 0 <= k < |p| ==> p[k] < |nodes|
  }

  ghost predicate Distinct(p: seq<nat>) {
    forall j, k :: 0 <= j < k < |p| ==> p[j] != p[k]
  }

  /** `p` is a chain in `nodes`: distinct nodes of the arena, each one's
      `next` is the following one and the last one's `next` is unset. */
  ghost predicate Linked<T>(nodes: seq<Node<T>>, p: seq<nat>) {
    && InArena(nodes, p)
    && Distinct(p)
    && (forall k :: 0 <= k < |p| ==> nodes[p[k]].next == After(p, k))
  }

  /** The values stored in the nodes of `p`, in order. */
  ghost function ValuesOf<T>(nodes: seq<Node<T>>, p: seq<nat>): seq<T>
    requires InArena(nodes, p)
  {
    seq(|p|, k requires 0 <= k < |p| => nodes[p[k]].value)
  }

  /** The nodes reached by following `next` from `cur`, if the walk ends on
      an unset reference within `fuel` steps without leaving the arena. */
  ghost function Walk<T>(nodes: seq<Node<T>>, cur: Option<nat>, fuel: nat): Option<seq<nat>>
    decreases fuel
  {
    match cur
    case None => Some([])
    case Some(i) =>
      if fuel == 0 || i >= |nodes| then None
      else match Walk(nodes, nodes[i].next, fuel - 1)
        case None => None
        case Some(rest) => Some([i] + rest)
  }

  /** The chain from `head`; a chain of distinct nodes is never longer than the arena. */
  ghost function Path<T>(l: LinkedList<T>): Option<seq<nat>> {
    Walk(l.nodes, l.head, |l.nodes|)
  }

  /** The list invariant: the walk from `head` ends, visits distinct nodes,
      and `tail` is its last node. In particular `head` is unset exactly when
      `tail` is. */
  ghost predicate Valid<T>(l: LinkedList<T>) {
    && Path(l).Some?
    && Linked(l.nodes, Path(l).value)
    && l.head == First(Path(l).value)
    && l.tail == Last(Path(l).value)
  }

  /** The elements of the list, head first. */
  ghost function Elements<T>(l: LinkedList<T>): seq<T>
    requires Valid(l)
  {
    ValuesOf(l.nodes, Path(l).value)
  }

  /** A valid list's head is unset exactly when its tail is, and its tail
      node has no successor. */
  lemma HeadTailAgree<T>(l: LinkedList<T>)
    requires Valid(l)
    ensures l.head.None? <==> l.tail.None?
    ensures l.head.None? <==> Elements(l) == []
    ensures l.tail.Some? ==> l.tail.value < |l.nodes| && l.nodes[l.tail.value].next.None?
  {
  }

  lemma {:induction false} WalkLength<T>(nodes: seq<Node<T>>, cur: Option<nat>, fuel: nat, p: seq<nat>)
    requires Walk(nodes, cur, fuel) == Some(p)
    ensures |p| <= fuel
    decreases fuel
  {
    match cur
    case None =>
    case Some(i) =>
      var rest := Walk(nodes, nodes[i].next, fuel - 1).value;
      WalkLength(nodes, nodes[i].next, fuel - 1, rest);
  }

  /** Every chain is found by the walk from its first node. */
  lemma {:induction false} WalkLinked<T>(nodes: seq<Node<T>>, p: seq<nat>, fuel: nat)
    requires Linked(nodes, p)
    requires |p| <= fuel
    ensures Walk(nodes, First(p), fuel) == Some(p)
    decreases |p|
  {
    if p != [] {
      LinkedSuffix(nodes, p, 1);
      assert nodes[p[0]].next == First(p[1..]);
      WalkLinked(nodes, p[1..], fuel - 1);
      assert [p[0]] + p[1..] == p;
    }
  }

  /** A chain of nodes that the head and tail references delimit makes a
      valid list, whose elements are the chain's values. */
  lemma ValidFromChain<T>(l: LinkedList<T>, p: seq<nat>)
    requires Linked(l.nodes, p)
    requires |p| <= |l.nodes|
    requires l.head == First(p) && l.tail == Last(p)
    ensures Valid(l) && Path(l) == Some(p)
    ensures Elements(l) == ValuesOf(l.nodes, p)
  {
    WalkLinked(l.nodes, p, |l.nodes|);
  }

  /** The chain of a valid list never outgrows the arena. */
  lemma PathBound<T>(l: LinkedList<T>)
    requires Valid(l)
    ensures |Path(l).value| <= |l.nodes|
  {
    WalkLength(l.nodes, l.head, |l.nodes|, Path(l).value);
  }

  /** The values of two node sequences joined are their values joined. */
  lemma ValuesOfConcat<T>(nodes: seq<Node<T>>, p: seq<nat>, q: seq<nat>)
    requires InArena(nodes, p) && InArena(nodes, q)
    ensures InArena(nodes, p + q)
    ensures ValuesOf(nodes, p + q) == ValuesOf(nodes, p) + ValuesOf(nodes, q)
  {
  }

  /** The values of a chain's prefix grow one node at a time. */
  lemma ValuesOfSnoc<T>(nodes: seq<Node<T>>, p: seq<nat>, k: nat)
    requires InArena(nodes, p) && k < |p|
    ensures ValuesOf(nodes, p[..k + 1]) == ValuesOf(nodes, p[..k]) + [nodes[p[k]].value]
  {
  }

  /** Every suffix of a chain is a chain. */
  lemma LinkedSuffix<T>(nodes: seq<Node<T>>, p: seq<nat>, i: nat)
    requires Linked(nodes, p)
    requires i <= |p|
    ensures Linked(nodes, p[i..])
  {
    var q := p[i..];
    forall k | 0 <= k < |q|
      ensures nodes[q[k]].next == After(q, k)
    {
      assert q[k] == p[i + k];
      assert After(p, i + k) == After(q, k);
    }
  }

  /** `prepend`: a fresh node in front of the chain, linked to the old head. */
  lemma LinkedPrepend<T>(nodes: seq<Node<T>>, p: seq<nat>, v: T)
    requires Linked(nodes, p)
    ensures Linked(nodes + [Node(v, First(p))], [|nodes|] + p)
    ensures ValuesOf(nodes + [Node(v, First(p))], [|nodes|] + p) == [v] + ValuesOf(nodes, p)
  {
    var nodes' := nodes + [Node(v, First(p))];
    var q := [|nodes|] + p;
    forall k | 0 <= k < |q|
      ensures nodes'[q[k]].next == After(q, k)
    {
      if k > 0 {
        assert q[k] == p[k - 1];
        assert After(q, k) == After(p, k - 1);
      }
    }
  }

  /** The positions of a chain with `n` spliced in at position `i`. */
  ghost predicate IsInserted(p: seq<nat>, i: nat, n: nat, q: seq<nat>) {
    && |q| == |p| + 1
    && i <= |p|
    && forall k {:trigger q[k]} :: 0 <= k < |q| ==> q[k] == if k < i then p[k] else if k == i then n else p[k - 1]
  }

  /** The positions of a chain with position `i` dropped. */
  ghost predicate IsDropped(p: seq<nat>, i: nat, q: seq<nat>) {
    && i < |p|
    && |q| == |p| - 1
    && forall k {:trigger q[k]} :: 0 <= k < |q| ==> q[k] == if k < i then p[k] else p[k + 1]
  }

  lemma InsertedAt(p: seq<nat>, i: nat, n: nat)
    requires i <= |p|
    ensures IsInserted(p, i, n, p[..i] + [n] + p[i..])
  {
  }

  lemma DroppedAt(p: seq<nat>, i: nat)
    requires i < |p|
    ensures IsDropped(p, i, p[..i] + p[i + 1..])
  {
  }

  /** A fresh node spliced in after position `i - 1` of the chain: the node
      at `i - 1` now leads to the fresh node, which leads to the old
      successor. With `i == |p|` this is `append`. */
  lemma LinkedInsert<T>(nodes: seq<Node<T>>, p: seq<nat>, i: nat, v: T)
    requires Linked(nodes, p)
    requires 0 < i <= |p|
    ensures Linked(SetNext(nodes, p[i - 1], Some(|nodes|)) + [Node(v, After(p, i - 1))], p[..i] + [|nodes|] + p[i..])
    ensures ValuesOf(SetNext(nodes, p[i - 1], Some(|nodes|)) + [Node(v, After(p, i - 1))], p[..i] + [|nodes|] + p[i..])
         == ValuesOf(nodes, p)[..i] + [v] + ValuesOf(nodes, p)[i..]
  {
    var n := |nodes|;
    var nodes' := SetNext(nodes, p[i - 1], Some(n)) + [Node(v, After(p, i - 1))];
    var q := p[..i] + [n] + p[i..];
    InsertedAt(p, i, n);
    InsertLinks(nodes, p, i, v, nodes', q);
    InsertDistinct(nodes, p, i, q);
    InsertValues(nodes, p, i, v, nodes', q);
  }

  lemma InsertLinks<T>(nodes: seq<Node<T>>, p: seq<nat>, i: nat, v: T, nodes': seq<Node<T>>, q: seq<nat>)
    requires Linked(nodes, p)
    requires 0 < i
    requires IsInserted(p, i, |nodes|, q)
    requires nodes' == SetNext(nodes, p[i - 1], Some(|nodes|)) + [Node(v, After(p, i - 1))]
    ensures InArena(nodes', q)
    ensures forall k :: 0 <= k < |q| ==> nodes'[q[k]].next == After(q, k)
  {
    forall k | 0 <= k < |q|
      ensures q[k] < |nodes'|
      ensures nodes'[q[k]].next == After(q, k)
    {
      if k < i {
        InsertLinkBefore(nodes, p, i, v, nodes', q, k);
      } else {
        InsertLinkAfter(nodes, p, i, v, nodes', q, k);
      }
    }
  }

  /** Up to the spliced node, each link is the old one, except that the
      node at `i - 1` now leads to the fresh node. */
  lemma InsertLinkBefore<T>(nodes: seq<Node<T>>, p: seq<nat>, i: nat, v: T, nodes': seq<Node<T>>, q: seq<nat>, k: nat)
    requires Linked(nodes, p)
    requires 0 < i
    requires IsInserted(p, i, |nodes|, q)
    requires nodes' == SetNext(nodes, p[i - 1], Some(|nodes|)) + [Node(v, After(p, i - 1))]
    requires k < i
    ensures q[k] < |nodes'| && nodes'[q[k]].next == After(q, k)
  {
    var extra := [Node(v, After(p, i - 1))];
    assert q[k] == p[k] && p[k] < |nodes|;
    if k < i - 1 {
      assert q[k + 1] == p[k + 1];
      assert p[k] != p[i - 1];
      SetNextElsewhere(nodes, p[i - 1], Some(|nodes|), extra, p[k]);
      assert nodes[p[k]].next == After(p, k);
    } else {
      assert q[k + 1] == |nodes|;
      SetNextHere(nodes, p[i - 1], Some(|nodes|), extra);
    }
  }

  /** From the spliced node on, each link is the old one shifted by one. */
  lemma InsertLinkAfter<T>(nodes: seq<Node<T>>, p: seq<nat>, i: nat, v: T, nodes': seq<Node<T>>, q: seq<nat>, k: nat)
    requires Linked(nodes, p)
    requires 0 < i
    requires IsInserted(p, i, |nodes|, q)
    requires nodes' == SetNext(nodes, p[i - 1], Some(|nodes|)) + [Node(v, After(p, i - 1))]
    requires i <= k < |q|
    ensures q[k] < |nodes'| && nodes'[q[k]].next == After(q, k)
  {
    if k == i {
      assert q[k] == |nodes|;
      if k + 1 < |q| {
        assert q[k + 1] == p[k];
      }
    } else {
      assert q[k] == p[k - 1] && p[k - 1] < |nodes|;
      if k + 1 < |q| {
        assert q[k + 1] == p[k];
      }
      assert p[k - 1] != p[i - 1];
      SetNextElsewhere(nodes, p[i - 1], Some(|nodes|), [Node(v, After(p, i - 1))], p[k - 1]);
      assert nodes[p[k - 1]].next == After(p, k - 1);
    }
  }

  /** Relinking one node leaves every other node as it was, fresh nodes
      appended or not. */
  lemma SetNextElsewhere<T>(nodes: seq<Node<T>>, y: nat, next: Option<nat>, extra: seq<Node<T>>, x: nat)
    requires x < |nodes| && y < |nodes| && x != y
    ensures (SetNext(nodes, y, next) + extra)[x] == nodes[x]
  {
  }

  /** The relinked node leads where it was told to. */
  lemma SetNextHere<T>(nodes: seq<Node<T>>, y: nat, next: Option<nat>, extra: seq<Node<T>>)
    requires y < |nodes|
    ensures (SetNext(nodes, y, next) + extra)[y] == Node(nodes[y].value, next)
  {
  }

  lemma InsertDistinct<T>(nodes: seq<Node<T>>, p: seq<nat>, i: nat, q: seq<nat>)
    requires InArena(nodes, p) && Distinct(p)
    requires IsInserted(p, i, |nodes|, q)
    ensures Distinct(q)
  {
    forall j, k | 0 <= j < k < |q|
      ensures q[j] != q[k]
    {
      if k < i {
        assert q[j] == p[j] && q[k] == p[k];
      } else if k == i {
        assert q[j] == p[j] && p[j] < |nodes|;
      } else if j < i {
        assert q[j] == p[j] && q[k] == p[k - 1];
      } else if j == i {
        assert q[k] == p[k - 1] && p[k - 1] < |nodes|;
      } else {
        assert q[j] == p[j - 1] && q[k] == p[k - 1];
      }
    }
  }

  lemma InsertValues<T>(nodes: seq<Node<T>>, p: seq<nat>, i: nat, v: T, nodes': seq<Node<T>>, q: seq<nat>)
    requires InArena(nodes, p)
    requires 0 < i
    requires IsInserted(p, i, |nodes|, q)
    requires nodes' == SetNext(nodes, p[i - 1], Some(|nodes|)) + [Node(v, After(p, i - 1))]
    ensures InArena(nodes', q)
    ensures ValuesOf(nodes', q) == ValuesOf(nodes, p)[..i] + [v] + ValuesOf(nodes, p)[i..]
  {
    var vs := ValuesOf(nodes, p);
    var ws := vs[..i] + [v] + vs[i..];
    assert |ws| == |q|;
    forall k | 0 <= k < |q|
      ensures q[k] < |nodes'|
      ensures nodes'[q[k]].value == ws[k]
    {
      if k < i {
        assert q[k] == p[k] && p[k] < |nodes|;
        assert ws[k] == vs[k];
      } else if k == i {
        assert q[k] == |nodes|;
      } else {
        assert q[k] == p[k - 1] && p[k - 1] < |nodes|;
        assert ws[k] == vs[k - 1];
      }
    }
    assert ValuesOf(nodes', q) == ws;
  }

  /** The node at position `i` dropped from the chain: its predecessor now
      leads to its successor (`prev.next = next`). With `i == |p| - 1`
      this cuts off the tail. */
  lemma LinkedUnlink<T>(nodes: seq<Node<T>>, p: seq<nat>, i: nat)
    requires Linked(nodes, p)
    requires 0 < i < |p|
    ensures Linked(SetNext(nodes, p[i - 1], After(p, i)), p[..i] + p[i + 1..])
    ensures ValuesOf(SetNext(nodes, p[i - 1], After(p, i)), p[..i] + p[i + 1..])
         == ValuesOf(nodes, p)[..i] + ValuesOf(nodes, p)[i + 1..]
  {
    var nodes' := SetNext(nodes, p[i - 1], After(p, i));
    var q := p[..i] + p[i + 1..];
    DroppedAt(p, i);
    UnlinkLinks(nodes, p, i, nodes', q);
    UnlinkDistinct(p, i, q);
    UnlinkValues(nodes, p, i, nodes', q);
  }

  lemma UnlinkLinks<T>(nodes: seq<Node<T>>, p: seq<nat>, i: nat, nodes': seq<Node<T>>, q: seq<nat>)
    requires Linked(nodes, p)
    requires 0 < i
    requires IsDropped(p, i, q)
    requires nodes' == SetNext(nodes, p[i - 1], After(p, i))
    ensures InArena(nodes', q)
    ensures forall k :: 0 <= k < |q| ==> nodes'[q[k]].next == After(q, k)
  {
    forall k | 0 <= k < |q|
      ensures q[k] < |nodes'|
      ensures nodes'[q[k]].next == After(q, k)
    {
      if k < i {
        UnlinkLinkBefore(nodes, p, i, nodes', q, k);
      } else {
        UnlinkLinkAfter(nodes, p, i, nodes', q, k);
      }
    }
  }

  /** Before the gap each link is the old one, except that the node at
      `i - 1` now leads past the dropped node. */
  lemma UnlinkLinkBefore<T>(nodes: seq<Node<T>>, p: seq<nat>, i: nat, nodes': seq<Node<T>>, q: seq<nat>, k: nat)
    requires Linked(nodes, p)
    requires 0 < i
    requires IsDropped(p, i, q)
    requires nodes' == SetNext(nodes, p[i - 1], After(p, i))
    requires k < i && k < |q|
    ensures q[k] < |nodes'| && nodes'[q[k]].next == After(q, k)
  {
    assert q[k] == p[k] && p[k] < |nodes|;
    if k < i - 1 {
      assert q[k + 1] == p[k + 1];
      assert p[k] != p[i - 1];
      assert nodes'[p[k]] == nodes[p[k]];
      assert nodes[p[k]].next == After(p, k);
    } else {
      assert After(q, k) == After(p, i);
    }
  }

  /** After the gap each link is the old one shifted by one. */
  lemma UnlinkLinkAfter<T>(nodes: seq<Node<T>>, p: seq<nat>, i: nat, nodes': seq<Node<T>>, q: seq<nat>, k: nat)
    requires Linked(nodes, p)
    requires 0 < i
    requires IsDropped(p, i, q)
    requires nodes' == SetNext(nodes, p[i - 1], After(p, i))
    requires i <= k < |q|
    ensures q[k] < |nodes'| && nodes'[q[k]].next == After(q, k)
  {
    assert q[k] == p[k + 1] && p[k + 1] < |nodes|;
    if k + 1 < |q| {
      assert q[k + 1] == p[k + 2];
    }
    assert nodes[p[k + 1]].next == After(p, k + 1);
    assert p[k + 1] != p[i - 1];
  }


  lemma UnlinkDistinct(p: seq<nat>, i: nat, q: seq<nat>)
    requires Distinct(p)
    requires IsDropped(p, i, q)
    ensures Distinct(q)
  {
    forall j, k | 0 <= j < k < |q|
      ensures q[j] != q[k]
    {
      if k < i {
        assert q[j] == p[j] && q[k] == p[k];
      } else if j < i {
        assert q[j] == p[j] && q[k] == p[k + 1];
      } else {
        assert q[j] == p[j + 1] && q[k] == p[k + 1];
      }
    }
  }

  lemma UnlinkValues<T>(nodes: seq<Node<T>>, p: seq<nat>, i: nat, nodes': seq<Node<T>>, q: seq<nat>)
    requires InArena(nodes, p)
    requires 0 < i
    requires IsDropped(p, i, q)
    requires nodes' == SetNext(nodes, p[i - 1], After(p, i))
    ensures InArena(nodes', q)
    ensures ValuesOf(nodes', q) == ValuesOf(nodes, p)[..i] + ValuesOf(nodes, p)[i + 1..]
  {
    var vs := ValuesOf(nodes, p);
    var ws := vs[..i] + vs[i + 1..];
    assert |ws| == |q|;
    forall k | 0 <= k < |q|
      ensures q[k] < |nodes'|
      ensures nodes'[q[k]].value == ws[k]
    {
      if k < i {
        assert q[k] == p[k] && p[k] < |nodes|;
        assert ws[k] == vs[k];
      } else {
        assert q[k] == p[k + 1] && p[k + 1] < |nodes|;
        assert ws[k] == vs[k + 1];
      }
    }
    assert ValuesOf(nodes', q) == ws;
  }
}
