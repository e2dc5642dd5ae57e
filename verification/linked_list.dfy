/** The operations of `LinkedList` (src/components/list-page/list-page.tsx),
    each a function or method from the old list to the new one. Every
    operation keeps the list `Valid` and says what it does to the list's
    `Elements`; the edge behaviour is the code's, not an idealised list's. */
module LinkedLists {
  import opened Types
  import opened ListChain

  /** A list after a deletion, with the value of the node that was unlinked
      (the JavaScript methods return that node, or `null`). */
  datatype Removal<T> = Removal(list: LinkedList<T>, removed: Option<T>)

  /** `s` without any occurrence of `x`, the rest in order. */
  function RemoveAll<T(==)>(s: seq<T>, x: T): seq<T> {
    if s == [] then []
    else (if s[0] == x then [] else [s[0]]) + RemoveAll(s[1..], x)
  }

  /** Removing `x` drops exactly its occurrences: `x` is gone and every
      other value keeps its count. */
  lemma {:induction false} RemoveAllCounts<T>(s: seq<T>, x: T)
    ensures multiset(RemoveAll(s, x)) == multiset(s)[x := 0]
    decreases |s|
  {
    if s != [] {
      RemoveAllCounts(s[1..], x);
      assert s == [s[0]] + s[1..];
    }
  }

  /** The nodes of `p` whose value is not `x`, in order. */
  ghost function Survivors<T>(nodes: seq<Node<T>>, p: seq<nat>, x: T): (s: seq<nat>)
    requires InArena(nodes, p)
    ensures |s| <= |p|
    ensures InArena(nodes, s)
    decreases |p|
  {
    if p == [] then []
    else Survivors(nodes, p[..|p| - 1], x) + (if nodes[p[|p| - 1]].value != x then [p[|p| - 1]] else [])
  }

  lemma {:induction false} RemoveAllSnoc<T>(s: seq<T>, y: T, x: T)
    ensures RemoveAll(s + [y], x) == RemoveAll(s, x) + (if y == x then [] else [y])
    decreases |s|
  {
    var last := if y == x then [] else [y];
    if s == [] {
      assert [y][1..] == [];
      assert RemoveAll([y], x) == last + RemoveAll([], x);
      assert s + [y] == [y];
    } else {
      var head := if s[0] == x then [] else [s[0]];
      assert (s + [y])[0] == s[0];
      assert (s + [y])[1..] == s[1..] + [y];
      RemoveAllSnoc(s[1..], y, x);
      calc {
        RemoveAll(s + [y], x);
        head + RemoveAll(s[1..] + [y], x);
        head + (RemoveAll(s[1..], x) + last);
        { assert head + (RemoveAll(s[1..], x) + last) == (head + RemoveAll(s[1..], x)) + last; }
        RemoveAll(s, x) + last;
      }
    }
  }

  /** The surviving nodes hold exactly the values that are not `x`. */
  lemma {:induction false} SurvivorValues<T>(nodes: seq<Node<T>>, p: seq<nat>, x: T)
    requires InArena(nodes, p)
    ensures ValuesOf(nodes, Survivors(nodes, p, x)) == RemoveAll(ValuesOf(nodes, p), x)
    decreases |p|
  {
    if p != [] {
      var init, e := p[..|p| - 1], p[|p| - 1];
      var y := nodes[e].value;
      var s := Survivors(nodes, init, x);
      var last := if y != x then [e] else [];
      assert Survivors(nodes, p, x) == s + last;
      SurvivorValues(nodes, init, x);
      assert p == init + [e];
      ValuesOfConcat(nodes, init, [e]);
      ValuesOfConcat(nodes, s, last);
      assert ValuesOf(nodes, [e]) == [y];
      assert ValuesOf(nodes, last) == if y == x then [] else [y];
      RemoveAllSnoc(ValuesOf(nodes, init), y, x);
    }
  }

  /** The list that `new LinkedList()` creates. */
  function Empty<T>(): (l: LinkedList<T>)
    ensures Valid(l) && Elements(l) == []
    ensures l.head.None? && l.tail.None?
  {
    var l := LinkedList([], None, None);
    ValidFromChain(l, []);
    l
  }

  /** `prepend`: a fresh node becomes the head; on an empty list it is the
      tail as well. */
  function Prepend<T>(l: LinkedList<T>, value: T): (r: LinkedList<T>)
    requires Valid(l)
    ensures Valid(r)
    ensures Elements(r) == [value] + Elements(l)
    ensures Elements(l) == [] ==> r.tail == r.head
    ensures Elements(l) != [] ==> r.tail == l.tail
  {
    var n := |l.nodes|;
    var r := LinkedList(l.nodes + [Node(value, l.head)], Some(n), if l.tail.None? then Some(n) else l.tail);
    PrependValid(l, value, r);
    r
  }

  lemma PrependValid<T>(l: LinkedList<T>, value: T, r: LinkedList<T>)
    requires Valid(l)
    requires r == LinkedList(l.nodes + [Node(value, l.head)], Some(|l.nodes|),
                             if l.tail.None? then Some(|l.nodes|) else l.tail)
    ensures Valid(r) && Elements(r) == [value] + Elements(l)
  {
    var p := Path(l).value;
    PathBound(l);
    LinkedPrepend(l.nodes, p, value);
    ValidFromChain(r, [|l.nodes|] + p);
  }

  /** `append`: a fresh node becomes the tail, linked from the old tail; on
      an empty list it is the head as well. */
  function Append<T>(l: LinkedList<T>, value: T): (r: LinkedList<T>)
    requires Valid(l)
    ensures Valid(r)
    ensures Elements(r) == Elements(l) + [value]
    ensures GetTail(r) == Some(value)
    ensures Elements(l) == [] ==> r.head == r.tail
    ensures Elements(l) != [] ==> r.head == l.head
  {
    var n := |l.nodes|;
    if l.head.None? || l.tail.None? then
      var r := LinkedList(l.nodes + [Node(value, None)], Some(n), Some(n));
      AppendValid(l, value, r);
      r
    else
      var r := LinkedList(SetNext(l.nodes, l.tail.value, Some(n)) + [Node(value, None)], l.head, Some(n));
      AppendValid(l, value, r);
      r
  }

  lemma AppendValid<T>(l: LinkedList<T>, value: T, r: LinkedList<T>)
    requires Valid(l)
    requires l.head.None? || l.tail.None? ==> r == LinkedList(l.nodes + [Node(value, None)], Some(|l.nodes|), Some(|l.nodes|))
    requires l.head.Some? && l.tail.Some? ==>
      l.tail.value < |l.nodes| &&
      r == LinkedList(SetNext(l.nodes, l.tail.value, Some(|l.nodes|)) + [Node(value, None)], l.head, Some(|l.nodes|))
    ensures Valid(r) && Elements(r) == Elements(l) + [value]
  {
    var p := Path(l).value;
    PathBound(l);
    if p == [] {
      LinkedPrepend(l.nodes, p, value);
      ValidFromChain(r, [|l.nodes|]);
    } else {
      LinkedInsert(l.nodes, p, |p|, value);
      assert p[..|p|] + [|l.nodes|] + p[|p|..] == p + [|l.nodes|];
      ValidFromChain(r, p + [|l.nodes|]);
      assert Elements(l)[..|p|] == Elements(l);
    }
  }

  /** `getHead`: the value of the head node, if any. */
  function GetHead<T>(l: LinkedList<T>): (v: Option<T>)
    requires Valid(l)
    ensures v == if Elements(l) == [] then None else Some(Elements(l)[0])
  {
    if l.head.Some? then Some(l.nodes[l.head.value].value) else None
  }

  /** `getTail`: the value of the tail node, which is the last element. */
  function GetTail<T>(l: LinkedList<T>): (v: Option<T>)
    requires Valid(l)
    ensures v == if Elements(l) == [] then None else Some(Elements(l)[|Elements(l)| - 1])
  {
    if l.tail.Some? then Some(l.nodes[l.tail.value].value) else None
  }

  /** `deleteHead`: the head's successor becomes the head; a single node
      leaves head and tail both unset; an empty list is left alone. */
  function DeleteHead<T>(l: LinkedList<T>): (r: Removal<T>)
    requires Valid(l)
    ensures Valid(r.list)
    ensures Elements(l) == [] ==> r == Removal(l, None)
    ensures Elements(l) != [] ==> r.removed == Some(Elements(l)[0]) && Elements(r.list) == Elements(l)[1..]
    ensures |Elements(l)| == 1 ==> r.list.head.None? && r.list.tail.None?
  {
    if l.head.None? then Removal(l, None)
    else
      var h := l.head.value;
      var r := if l.nodes[h].next.Some? then l.(head := l.nodes[h].next)
               else LinkedList(l.nodes, None, None);
      DeleteHeadValid(l, r);
      Removal(r, Some(l.nodes[h].value))
  }

  lemma DeleteHeadValid<T>(l: LinkedList<T>, r: LinkedList<T>)
    requires Valid(l) && l.head.Some?
    requires r == if l.nodes[l.head.value].next.Some? then l.(head := l.nodes[l.head.value].next)
                  else LinkedList(l.nodes, None, None)
    ensures Valid(r) && Elements(r) == Elements(l)[1..]
  {
    var p := Path(l).value;
    PathBound(l);
    LinkedSuffix(l.nodes, p, 1);
    var q := p[1..];
    assert l.nodes[p[0]].next == After(p, 0) == First(q);
    if q != [] {
      assert Last(q) == Last(p);
    }
    ValidFromChain(r, q);
  }

  /** `toArray`: the values met walking from the head. */
  method ToArray<T>(l: LinkedList<T>) returns (values: seq<T>)
    requires Valid(l)
    ensures values == Elements(l)
  {
    values := Collect(l.nodes, Path(l).value, l.head);
  }

  /** The walk of `toArray` along a chain starting at `start`. */
  method Collect<T>(nodes: seq<Node<T>>, ghost p: seq<nat>, start: Option<nat>) returns (values: seq<T>)
    requires Linked(nodes, p) && start == First(p)
    ensures values == ValuesOf(nodes, p)
  {
    values := [];
    var current := start;
    ghost var k := 0;
    while current.Some?
      invariant k <= |p| && |values| == k
      invariant current == if k < |p| then Some(p[k]) else None
      invariant values == ValuesOf(nodes, p[..k])
      decreases |p| - k
    {
      ValuesOfSnoc(nodes, p, k);
      values := values + [nodes[current.value].value];
      current := nodes[current.value].next;
      k := k + 1;
    }
    assert p[..k] == p;
  }

  /** `getByIndex`: the node at position `index`, or nothing when the index
      is outside `[0, length)`. */
  method GetByIndex<T>(l: LinkedList<T>, index: int) returns (node: Option<nat>)
    requires Valid(l)
    ensures node.None? <==> index < 0 || index >= |Elements(l)|
    ensures node.Some? ==> node.value == Path(l).value[index] && node.value < |l.nodes|
    ensures node.Some? ==> l.nodes[node.value].value == Elements(l)[index]
  {
    var values := ToArray(l);
    if index >= |values| || index < 0 {
      return None;
    }
    ghost var p := Path(l).value;
    var counter := 0;
    var current := l.head;
    // The source also guards the step with `if (current)`; the guard always
    // holds, since the index is below the length.
    while counter < index
      invariant 0 <= counter <= index
      invariant current == Some(p[counter])
    {
      current := l.nodes[current.value].next;
      counter := counter + 1;
    }
    node := current;
  }

  /** `deleteTail`: walks to the node before the tail, cuts its link and
      makes it the tail; a single node leaves head and tail both unset; an
      empty list is left alone. */
  method DeleteTail<T>(l: LinkedList<T>) returns (r: Removal<T>)
    requires Valid(l)
    ensures Valid(r.list)
    ensures Elements(l) == [] ==> r == Removal(l, None)
    ensures Elements(l) != [] ==>
      && r.removed == Some(Elements(l)[|Elements(l)| - 1])
      && Elements(r.list) == Elements(l)[..|Elements(l)| - 1]
    ensures GetTail(r.list) == if |Elements(l)| <= 1 then None else Some(Elements(l)[|Elements(l)| - 2])
  {
    if l.tail.None? || l.head.None? {
      return Removal(l, None);
    }
    ghost var p := Path(l).value;
    var deletedTail := l.nodes[l.tail.value].value;
    if l.head == l.tail {
      assert |p| == 1;
      r := Removal(LinkedList(l.nodes, None, None), Some(deletedTail));
      ValidFromChain(r.list, []);
      return;
    }
    assert |p| >= 2;
    ghost var cut := SetNext(l.nodes, p[|p| - 2], None);
    ghost var k := 0;
    var nodes := l.nodes;
    var current := l.head.value;
    while nodes[current].next.Some?
      invariant 0 <= k <= |p| - 2
      invariant current == p[k]
      invariant nodes == l.nodes || (nodes == cut && k == |p| - 2)
      decreases |p| - k, if nodes[current].next.Some? then 1 else 0
    {
      var next := nodes[current].next.value;
      if nodes[next].next.None? {
        nodes := SetNext(nodes, current, None);
      } else {
        current := next;
        k := k + 1;
      }
    }
    r := Removal(LinkedList(nodes, l.head, Some(current)), Some(deletedTail));
    PathBound(l);
    LinkedUnlink(l.nodes, p, |p| - 1);
    assert p[..|p| - 1] + p[|p|..] == p[..|p| - 1];
    ValidFromChain(r.list, p[..|p| - 1]);
  }

  /** `addByIndex`: index 0 prepends; an index strictly inside the list
      splices a fresh node in before the node at that index; the index equal
      to a positive length splices nothing, because there is no node at
      that index. The list comes back (`accepted`) unless the index is
      negative or beyond the length, which changes nothing. */
  method AddByIndex<T>(l: LinkedList<T>, index: int, value: T) returns (r: LinkedList<T>, accepted: bool)
    requires Valid(l)
    ensures Valid(r)
    ensures accepted <==> 0 <= index <= |Elements(l)|
    ensures index == 0 ==> Elements(r) == [value] + Elements(l)
    ensures 0 < index < |Elements(l)| ==>
      Elements(r) == Elements(l)[..index] + [value] + Elements(l)[index..]
    ensures index != 0 && (index < 0 || index >= |Elements(l)|) ==> r == l
  {
    r := l;
    if index == 0 {
      r := Prepend(r, value);
    }
    var values := ToArray(r);
    if index > |values| || index < 0 {
      return r, false;
    }
    var prevNode := GetByIndex(r, index - 1);
    var nextNode := GetByIndex(r, index);
    if prevNode.Some? && nextNode.Some? {
      var n := |r.nodes|;
      var r' := LinkedList(SetNext(r.nodes, prevNode.value, Some(n)) + [Node(value, nextNode)], r.head, r.tail);
      SpliceValid(r, index, value, r');
      r := r';
    }
    accepted := true;
  }

  /** `deleteByIndex`: index 0 deletes the head, the last index deletes the
      tail, an index strictly between relinks its neighbours. Any other
      index changes nothing; the list comes back (`accepted`) unless the
      index is negative or beyond the length. */
  method DeleteByIndex<T>(l: LinkedList<T>, index: int) returns (r: LinkedList<T>, accepted: bool)
    requires Valid(l)
    ensures Valid(r)
    ensures accepted <==> 0 <= index <= |Elements(l)|
    ensures 0 <= index < |Elements(l)| ==>
      Elements(r) == Elements(l)[..index] + Elements(l)[index + 1..]
    ensures index < 0 || index >= |Elements(l)| ==> r == l
  {
    r := l;
    if index == 0 {
      var d := DeleteHead(r);
      r := d.list;
    }
    var values := ToArray(r);
    if index == |values| - 1 && index != 0 {
      var d := DeleteTail(r);
      r := d.list;
    }
    values := ToArray(r);
    if index > |values| || index < 0 {
      return r, false;
    }
    var prevNode := GetByIndex(r, index - 1);
    var nextNode := GetByIndex(r, index + 1);
    if prevNode.Some? && nextNode.Some? {
      var r' := r.(nodes := SetNext(r.nodes, prevNode.value, nextNode));
      BypassValid(r, index, r');
      r := r';
    }
    accepted := true;
  }

  /** The splice of `addByIndex`: a fresh node between positions
      `index - 1` and `index`. */
  lemma SpliceValid<T>(l: LinkedList<T>, index: int, value: T, r: LinkedList<T>)
    requires Valid(l)
    requires 0 < index < |Elements(l)|
    requires r == LinkedList(SetNext(l.nodes, Path(l).value[index - 1], Some(|l.nodes|))
                             + [Node(value, Some(Path(l).value[index]))], l.head, l.tail)
    ensures Valid(r)
    ensures Elements(r) == Elements(l)[..index] + [value] + Elements(l)[index..]
  {
    var p := Path(l).value;
    PathBound(l);
    var q := SpliceChain(l.nodes, p, index, value, r.nodes);
    ValidFromChain(r, q);
  }

  /** The chain of `addByIndex` for `0 < index < |p|`: the fresh node goes
      between positions `index - 1` and `index`. */
  lemma SpliceChain<T>(nodes: seq<Node<T>>, p: seq<nat>, index: nat, value: T, nodes': seq<Node<T>>)
    returns (q: seq<nat>)
    requires Linked(nodes, p) && |p| <= |nodes|
    requires 0 < index < |p|
    requires nodes' == SetNext(nodes, p[index - 1], Some(|nodes|)) + [Node(value, Some(p[index]))]
    ensures Linked(nodes', q) && |q| <= |nodes'|
    ensures First(q) == First(p) && Last(q) == Last(p)
    ensures ValuesOf(nodes', q) == ValuesOf(nodes, p)[..index] + [value] + ValuesOf(nodes, p)[index..]
  {
    q := p[..index] + [|nodes|] + p[index..];
    assert After(p, index - 1) == Some(p[index]);
    LinkedInsert(nodes, p, index, value);
    assert q[0] == p[0] && q[|q| - 1] == p[|p| - 1];
  }

  /** The relink of `deleteByIndex`: position `index - 1` now leads to
      position `index + 1`. */
  lemma BypassValid<T>(l: LinkedList<T>, index: int, r: LinkedList<T>)
    requires Valid(l)
    requires 0 < index < |Elements(l)| - 1
    requires r == l.(nodes := SetNext(l.nodes, Path(l).value[index - 1], Some(Path(l).value[index + 1])))
    ensures Valid(r)
    ensures Elements(r) == Elements(l)[..index] + Elements(l)[index + 1..]
  {
    var p := Path(l).value;
    PathBound(l);
    var q := BypassChain(l.nodes, p, index, r.nodes);
    ValidFromChain(r, q);
  }

  /** The chain of `deleteByIndex` for `0 < index < |p| - 1`: position
      `index` drops out. */
  lemma BypassChain<T>(nodes: seq<Node<T>>, p: seq<nat>, index: nat, nodes': seq<Node<T>>)
    returns (q: seq<nat>)
    requires Linked(nodes, p) && |p| <= |nodes|
    requires 0 < index < |p| - 1
    requires nodes' == SetNext(nodes, p[index - 1], Some(p[index + 1]))
    ensures Linked(nodes', q) && |q| <= |nodes'|
    ensures First(q) == First(p) && Last(q) == Last(p)
    ensures ValuesOf(nodes', q) == ValuesOf(nodes, p)[..index] + ValuesOf(nodes, p)[index + 1..]
  {
    q := p[..index] + p[index + 1..];
    assert After(p, index) == Some(p[index + 1]);
    LinkedUnlink(nodes, p, index);
    assert q[0] == p[0] && q[|q| - 1] == p[|p| - 1];
  }

  /** `delete(value)`: unlinks every node holding `value`. It first
      advances the head past such nodes, then walks the rest, bypassing
      each matching successor; when the old tail held `value`, the last
      node reached becomes the tail. Returns the value of a deleted node
      when there was one. */
  method Delete<T(==)>(l: LinkedList<T>, value: T) returns (r: Removal<T>)
    requires Valid(l)
    ensures Valid(r.list)
    ensures Elements(r.list) == RemoveAll(Elements(l), value)
    ensures r.removed == if value in Elements(l) then Some(value) else None
  {
    if l.head.None? {
      return Removal(l, None);
    }
    ghost var p := Path(l).value;
    var head, deletedNode;
    ghost var h;
    head, h, deletedNode := SkipMatching(l, p, value);
    var nodes := l.nodes;
    var current := head;
    ghost var kept: seq<nat> := [];
    if current.Some? {
      var c;
      nodes, c, kept, deletedNode := KeepRest(l, p, value, current.value, h, deletedNode);
      current := Some(c);
    } else {
      assert h == |p|;
      NoSurvivorLast(l.nodes, p, value);
    }
    assert l.tail == Some(p[|p| - 1]) && p[|p| - 1] < |l.nodes| == |nodes|;
    var tail := l.tail;
    if tail.Some? && nodes[tail.value].value == value {
      tail := current;
    }
    r := Removal(LinkedList(nodes, head, tail), deletedNode);
    if head.None? {
      DeleteFinishEmpty(l, p, value, r);
    } else {
      assert r.list.tail == if nodes[p[|p| - 1]].value == value then Last(kept) else l.tail;
      DeleteFinishKept(l, p, value, h, nodes, kept, r);
    }
  }

  /** The first loop of `delete`: advances the head past every leading
      node holding `value`; `h` counts the nodes skipped. */
  method SkipMatching<T(==)>(l: LinkedList<T>, ghost p: seq<nat>, value: T)
    returns (head: Option<nat>, ghost h: nat, deleted: Option<T>)
    requires Valid(l) && p == Path(l).value
    ensures h <= |p| && head == First(p[h..])
    ensures h < |p| ==> l.nodes[p[h]].value != value
    ensures Survivors(l.nodes, p[..h], value) == []
    ensures deleted == if value in ValuesOf(l.nodes, p[..h]) then Some(value) else None
    ensures head.Some? ==> head.value < |l.nodes| && l.nodes[head.value].value != value
    ensures deleted.Some? ==> deleted.value == value
  {
    deleted := None;
    head := l.head;
    h := 0;
    while head.Some? && l.nodes[head.value].value == value
      invariant h <= |p|
      invariant head == First(p[h..])
      invariant Survivors(l.nodes, p[..h], value) == []
      invariant deleted == if value in ValuesOf(l.nodes, p[..h]) then Some(value) else None
      decreases |p| - h
    {
      PrefixStep(l.nodes, p, h, value);
      deleted := Some(l.nodes[head.value].value);
      head := l.nodes[head.value].next;
      h := h + 1;
    }
  }

  /** The second part of `delete`, from the first node that does not hold
      `value` (at position `h`): the nodes from there on are reduced to their
      survivors `kept`, and `c` is the last of them. */
  method KeepRest<T(==)>(l: LinkedList<T>, ghost p: seq<nat>, value: T, c0: nat, ghost h: nat, deleted0: Option<T>)
    returns (nodes: seq<Node<T>>, c: nat, ghost kept: seq<nat>, deleted: Option<T>)
    requires Valid(l) && p == Path(l).value
    requires h < |p| && c0 == p[h] && l.nodes[p[h]].value != value
    requires Survivors(l.nodes, p[..h], value) == []
    requires deleted0 == if value in ValuesOf(l.nodes, p[..h]) then Some(value) else None
    ensures RestInv(l, p, value, nodes, kept, |p|, deleted)
    ensures Linked(nodes, kept) && kept[0] == p[h] && Last(kept) == Some(c)
    ensures c < |nodes| && nodes[c].next.None?
    ensures deleted.Some? ==> deleted.value == value
  {
    RestStart(l, p, value, h, deleted0);
    ghost var m;
    nodes, c, kept, m, deleted := BypassRest(l, p, value, l.nodes, c0, [p[h]], h + 1, deleted0);
    RestEnd(l, p, value, nodes, kept, m, deleted);
  }

  /** The second loop of `delete`: from the last kept node `c`, bypass
      every successor holding `value` and step over every other one, until
      the last node is reached. */
  method BypassRest<T(==)>(ghost l: LinkedList<T>, ghost p: seq<nat>, value: T, nodes0: seq<Node<T>>, c0: nat,
                           ghost kept0: seq<nat>, ghost m0: nat, deleted0: Option<T>)
    returns (nodes: seq<Node<T>>, c: nat, ghost kept: seq<nat>, ghost m: nat, deleted: Option<T>)
    requires RestInv(l, p, value, nodes0, kept0, m0, deleted0)
    requires c0 == kept0[|kept0| - 1] && c0 < |nodes0|
    ensures RestInv(l, p, value, nodes, kept, m, deleted)
    ensures c == kept[|kept| - 1] && kept[0] == kept0[0] && c < |nodes| && nodes[c].next.None?
  {
    nodes, c, kept, m, deleted := nodes0, c0, kept0, m0, deleted0;
    while nodes[c].next.Some?
      invariant RestInv(l, p, value, nodes, kept, m, deleted)
      invariant c == kept[|kept| - 1] && kept[0] == kept0[0] && c < |nodes|
      decreases |p| - m
    {
      nodes, c, kept, m, deleted := BypassAt(l, p, value, nodes, c, kept, m, deleted);
    }
  }

  /** One round of `delete`'s second loop: the successor of `c` is either
      bypassed or becomes the new last kept node. */
  method BypassAt<T(==)>(ghost l: LinkedList<T>, ghost p: seq<nat>, value: T, nodes0: seq<Node<T>>, c0: nat,
                         ghost kept0: seq<nat>, ghost m0: nat, deleted0: Option<T>)
    returns (nodes: seq<Node<T>>, c: nat, ghost kept: seq<nat>, ghost m: nat, deleted: Option<T>)
    requires RestInv(l, p, value, nodes0, kept0, m0, deleted0)
    requires c0 == kept0[|kept0| - 1] && c0 < |nodes0| && nodes0[c0].next.Some?
    ensures RestInv(l, p, value, nodes, kept, m, deleted)
    ensures c == kept[|kept| - 1] && kept[0] == kept0[0] && c < |nodes| && m == m0 + 1
  {
    var next := nodes0[c0].next.value;
    BypassStep(l, p, value, nodes0, kept0, m0, deleted0, c0, next);
    m := m0 + 1;
    if nodes0[next].value == value {
      deleted := Some(nodes0[next].value);
      nodes := SetNext(nodes0, c0, nodes0[next].next);
      c, kept := c0, kept0;
    } else {
      KeepStep(l, p, value, nodes0, kept0, m0, deleted0, c0, next);
      nodes, c, kept, deleted := nodes0, next, kept0 + [next], deleted0;
    }
  }

  /** What `delete`'s second loop maintains: the nodes examined so far
      (`p[..m]`) have been reduced to their survivors `kept`, still linked
      to the unexamined rest of the old chain; values never change. */
  ghost predicate RestInv<T>(l: LinkedList<T>, p: seq<nat>, value: T, nodes: seq<Node<T>>,
                             kept: seq<nat>, m: nat, deleted: Option<T>)
  {
    && InArena(l.nodes, p)
    && |nodes| == |l.nodes|
    && (forall x :: 0 <= x < |nodes| ==> nodes[x].value == l.nodes[x].value)
    && m <= |p|
    && kept != []
    && Linked(nodes, kept + p[m..])
    && kept == Survivors(l.nodes, p[..m], value)
    && deleted == if value in ValuesOf(l.nodes, p[..m]) then Some(value) else None
  }

  /** One more node of `p` examined by `delete`. */
  lemma PrefixStep<T>(nodes: seq<Node<T>>, p: seq<nat>, m: nat, value: T)
    requires InArena(nodes, p)
    requires m < |p|
    ensures p[..m + 1][..m] == p[..m] && p[..m + 1][m] == p[m]
    ensures Survivors(nodes, p[..m + 1], value)
         == Survivors(nodes, p[..m], value) + (if nodes[p[m]].value != value then [p[m]] else [])
    ensures ValuesOf(nodes, p[..m + 1]) == ValuesOf(nodes, p[..m]) + [nodes[p[m]].value]
  {
    assert p[..m + 1][..m] == p[..m];
  }

  lemma RestStart<T>(l: LinkedList<T>, p: seq<nat>, value: T, h: nat, deleted: Option<T>)
    requires Linked(l.nodes, p)
    requires h < |p| && l.nodes[p[h]].value != value
    requires Survivors(l.nodes, p[..h], value) == []
    requires deleted == if value in ValuesOf(l.nodes, p[..h]) then Some(value) else None
    ensures RestInv(l, p, value, l.nodes, [p[h]], h + 1, deleted)
  {
    PrefixStep(l.nodes, p, h, value);
    assert Survivors(l.nodes, p[..h + 1], value) == [p[h]];
    assert value in ValuesOf(l.nodes, p[..h + 1]) <==> value in ValuesOf(l.nodes, p[..h]);
    LinkedSuffix(l.nodes, p, h);
    assert [p[h]] + p[h + 1..] == p[h..];
  }

  /** The successor `next` of the last kept node `c` holds `value`: bypass it. */
  lemma BypassStep<T>(l: LinkedList<T>, p: seq<nat>, value: T, nodes: seq<Node<T>>,
                      kept: seq<nat>, m: nat, deleted: Option<T>, c: nat, next: nat)
    requires RestInv(l, p, value, nodes, kept, m, deleted)
    requires c == kept[|kept| - 1] && c < |nodes| && nodes[c].next == Some(next)
    ensures next < |nodes|
    ensures nodes[next].value == value ==>
      && m < |p|
      && RestInv(l, p, value, SetNext(nodes, c, nodes[next].next), kept, m + 1, Some(nodes[next].value))
  {
    DeleteStep(nodes, kept, p, m);
    PrefixStep(l.nodes, p, m, value);
  }

  /** The successor `next` of the last kept node `c` survives: keep it. */
  lemma KeepStep<T>(l: LinkedList<T>, p: seq<nat>, value: T, nodes: seq<Node<T>>,
                    kept: seq<nat>, m: nat, deleted: Option<T>, c: nat, next: nat)
    requires RestInv(l, p, value, nodes, kept, m, deleted)
    requires c == kept[|kept| - 1] && c < |nodes| && nodes[c].next == Some(next)
    requires next < |nodes| && nodes[next].value != value
    ensures m < |p| && RestInv(l, p, value, nodes, kept + [next], m + 1, deleted)
  {
    DeleteStep(nodes, kept, p, m);
    PrefixStep(l.nodes, p, m, value);
  }

  /** The last kept node has no successor: every node has been examined. */
  lemma RestEnd<T>(l: LinkedList<T>, p: seq<nat>, value: T, nodes: seq<Node<T>>,
                   kept: seq<nat>, m: nat, deleted: Option<T>)
    requires RestInv(l, p, value, nodes, kept, m, deleted)
    requires kept[|kept| - 1] < |nodes| && nodes[kept[|kept| - 1]].next.None?
    ensures m == |p| && Linked(nodes, kept)
  {
    var q := kept + p[m..];
    assert q[|kept| - 1] == kept[|kept| - 1];
    assert nodes[q[|kept| - 1]].next == After(q, |kept| - 1);
    assert kept + p[|p|..] == kept;
  }

  /** A last node that survives is the last survivor. */
  lemma SurvivorsLast<T>(nodes: seq<Node<T>>, p: seq<nat>, value: T)
    requires InArena(nodes, p) && p != []
    requires nodes[p[|p| - 1]].value != value
    ensures Last(Survivors(nodes, p, value)) == Last(p)
  {
  }

  /** When no node survives, the last node held the value. */
  lemma NoSurvivorLast<T>(nodes: seq<Node<T>>, p: seq<nat>, value: T)
    requires InArena(nodes, p) && p != []
    requires Survivors(nodes, p[..|p|], value) == []
    ensures nodes[p[|p| - 1]].value == value
  {
    assert p[..|p|] == p;
  }

  /** `delete` removed every node: head and tail end up unset. */
  lemma DeleteFinishEmpty<T>(l: LinkedList<T>, p: seq<nat>, value: T, r: Removal<T>)
    requires Valid(l) && p == Path(l).value && p != []
    requires Survivors(l.nodes, p[..|p|], value) == []
    requires r.removed == if value in ValuesOf(l.nodes, p[..|p|]) then Some(value) else None
    requires r.list == LinkedList(l.nodes, None, None)
    ensures Valid(r.list)
    ensures Elements(r.list) == RemoveAll(Elements(l), value)
    ensures r.removed == if value in Elements(l) then Some(value) else None
  {
    assert p[..|p|] == p;
    SurvivorValues(l.nodes, p, value);
    ValidFromChain(r.list, []);
  }

  /** `delete` kept some nodes: they form the new chain. */
  lemma DeleteFinishKept<T>(l: LinkedList<T>, p: seq<nat>, value: T, h: nat,
                            nodes: seq<Node<T>>, kept: seq<nat>, r: Removal<T>)
    requires Valid(l) && p == Path(l).value && h < |p|
    requires RestInv(l, p, value, nodes, kept, |p|, r.removed)
    requires Linked(nodes, kept) && kept[0] == p[h]
    requires r.list.nodes == nodes && r.list.head == Some(p[h])
    requires r.list.tail == if nodes[p[|p| - 1]].value == value then Last(kept) else l.tail
    ensures Valid(r.list)
    ensures Elements(r.list) == RemoveAll(Elements(l), value)
    ensures r.removed == if value in Elements(l) then Some(value) else None
  {
    PathBound(l);
    assert p[..|p|] == p;
    SurvivorValues(l.nodes, p, value);
    if nodes[p[|p| - 1]].value != value {
      SurvivorsLast(l.nodes, p, value);
    }
    assert ValuesOf(nodes, kept) == ValuesOf(l.nodes, kept);
    ValidFromChain(r.list, kept);
  }

  /** The chain seen by `delete`'s second loop, after bypassing or keeping
      the successor of the last kept node. */
  lemma DeleteStep<T>(nodes: seq<Node<T>>, kept: seq<nat>, p: seq<nat>, m: nat)
    requires kept != [] && m <= |p|
    requires Linked(nodes, kept + p[m..])
    requires kept[|kept| - 1] < |nodes| && nodes[kept[|kept| - 1]].next.Some?
    ensures m < |p| && nodes[kept[|kept| - 1]].next == Some(p[m]) && p[m] < |nodes|
    ensures Linked(SetNext(nodes, kept[|kept| - 1], nodes[p[m]].next), kept + p[m + 1..])
    ensures (kept + [p[m]]) + p[m + 1..] == kept + p[m..]
  {
    var q := kept + p[m..];
    var i := |kept|;
    assert q[i - 1] == kept[i - 1];
    assert nodes[q[i - 1]].next == After(q, i - 1);
    assert m < |p| && i < |q|;
    SplitAt(kept, p, m);
    LinkedUnlink(nodes, q, i);
    assert nodes[q[i]].next == After(q, i);
  }

  /** The positions around the seam of `kept + p[m..]`. */
  lemma SplitAt(kept: seq<nat>, p: seq<nat>, m: nat)
    requires m < |p|
    ensures (kept + p[m..])[|kept|] == p[m]
    ensures (kept + p[m..])[..|kept|] == kept
    ensures (kept + p[m..])[|kept| + 1..] == p[m + 1..]
    ensures (kept + [p[m]]) + p[m + 1..] == kept + p[m..]
  {
    assert p[m..] == [p[m]] + p[m + 1..];
  }

}
