/** A doubly linked list with head insertion, constant-time deletion of any
    node and a linear search (src/linkedlist.ts).

    The JavaScript heap of `Node` objects is modelled as an arena: a map from
    node ids to node records. The arena keeps every node the list has ever
    created, including deleted ones, because a caller may still hold a
    deleted node's handle and follow its `next()`/`previous()` links, which
    `delete` leaves untouched. Which ids currently form the list is described
    by the ghost predicate `IsChain`, not stored. */
module LinkedLists {
  import opened Wrappers
  import opened Sequences

  /** A node handle: the identity of a `Node` object. */
  type NodeId = nat

  /** A `Node` object: the read-only payload (`data()`) and the two links
      (`next()`, `previous()`). */
  datatype Node<T> = Node(data: T, next: Option<NodeId>, previous: Option<NodeId>)

  /** The heap of nodes, the list's `_head`, and the id the next `new Node`
      receives. */
  datatype Arena<T> = Arena(heap: map<NodeId, Node<T>>, head: Option<NodeId>, nextId: NodeId)

  /** What object identity guarantees in JavaScript: ids not yet handed out
      are unused, and every link refers to an existing node. */
  predicate Closed<T>(a: Arena<T>) {
    && (forall id :: id in a.heap ==> id < a.nextId)
    && LinksInside(a.heap)
    && Points(a.heap, a.head)
  }

  /** Every `next` and `previous` link of the heap is null or refers to a
      node of the heap. */
  predicate LinksInside<T>(heap: map<NodeId, Node<T>>) {
    forall id {:trigger heap[id]} :: id in heap ==> Points(heap, heap[id].next) && Points(heap, heap[id].previous)
  }

  /** A link that is null or refers to a node of the heap. */
  predicate Points<T>(heap: map<NodeId, Node<T>>, link: Option<NodeId>) {
    link.Some? ==> link.value in heap
  }

  type List<T> = a: Arena<T> | Closed(a) witness Arena(map[], None, 0)

  /** Ids are handed out in increasing order and `insert` links a new node
      in front of older ones, so every `next` link leads to a smaller id
      and every `previous` link to a larger one. `Empty` has this property
      and `insert` and `delete` keep it (`InsertKeepsOrder`,
      `DeleteKeepsOrder`), stale handles included. */
  predicate Ordered<T>(l: Arena<T>) {
    forall id {:trigger l.heap[id]} :: id in l.heap ==>
      && (l.heap[id].next.Some? ==> l.heap[id].next.value < id)
      && (l.heap[id].previous.Some? ==> id < l.heap[id].previous.value)
  }

  /** The `i`-th id of `ids` as a link, null outside the sequence. */
  function At(ids: seq<NodeId>, i: int): (r: Option<NodeId>)
    ensures r.Some? <==> 0 <= i < |ids|
  {
    if 0 <= i < |ids| then Some(ids[i]) else None
  }

  /** `ids` is the list, head to tail: `head` is its first id, and each id
      is a node of the heap whose `next` is its successor and whose
      `previous` is its predecessor (null at the two ends). Such a chain
      never repeats an id (`LinkedIsDistinct`). */
  ghost predicate IsChain<T>(l: List<T>, ids: seq<NodeId>) {
    && l.head == At(ids, 0)
    && Linked(l.heap, ids)
  }

  ghost predicate Distinct(ids: seq<NodeId>) {
    forall i, j :: 0 <= i < j < |ids| ==> ids[i] != ids[j]
  }

  /** Each id of `ids` is a node of `heap` whose `next` is its successor
      and whose `previous` is its predecessor. */
  ghost predicate Linked<T>(heap: map<NodeId, Node<T>>, ids: seq<NodeId>) {
    && (forall i :: 0 <= i < |ids| ==> ids[i] in heap)
    && (forall i {:trigger heap[ids[i]]} :: 0 <= i < |ids| ==> heap[ids[i]].next == At(ids, i + 1))
    && (forall i {:trigger heap[ids[i]]} :: 0 <= i < |ids| ==> heap[ids[i]].previous == At(ids, i - 1))
  }

  /** A linked sequence of ids cannot repeat one: if `ids[i] == ids[j]` with
      `i < j`, following `next` from both positions would keep them equal
      until the later one reaches the tail, whose `next` is null while the
      earlier one's is not. */
  lemma {:induction false} LinkedIdsDiffer<T>(heap: map<NodeId, Node<T>>, ids: seq<NodeId>, i: nat, j: nat)
    requires Linked(heap, ids) && i < j < |ids|
    ensures ids[i] != ids[j]
    decreases |ids| - j
  {
    if ids[i] == ids[j] {
      assert heap[ids[i]].next == At(ids, i + 1);
      assert heap[ids[j]].next == At(ids, j + 1);
      if j + 1 < |ids| {
        LinkedIdsDiffer(heap, ids, i + 1, j + 1);
      }
    }
  }

  lemma LinkedIsDistinct<T>(heap: map<NodeId, Node<T>>, ids: seq<NodeId>)
    requires Linked(heap, ids)
    ensures Distinct(ids)
  {
    forall i, j | 0 <= i < j < |ids|
      ensures ids[i] != ids[j]
    {
      LinkedIdsDiffer(heap, ids, i, j);
    }
  }

  /** The payloads of the list, head to tail. */
  ghost function Values<T>(l: List<T>, ids: seq<NodeId>): (vs: seq<T>)
    requires IsChain(l, ids)
    ensures |vs| == |ids|
    ensures forall i {:trigger vs[i]} :: 0 <= i < |ids| ==> vs[i] == l.heap[ids[i]].data
  {
    seq(|ids|, i requires 0 <= i < |ids| => l.heap[ids[i]].data)
  }

  /** `new LinkedList()`: the head is null and no node exists. */
  function Empty<T>(): (l: List<T>)
    ensures l.head == None
    ensures IsChain(l, [])
    ensures Ordered(l)
  {
    Arena(map[], None, 0)
  }

  /** `updateNext`: only the `next` link of node `id` changes. */
  function SetNext<T>(heap: map<NodeId, Node<T>>, id: NodeId, next: Option<NodeId>): (h: map<NodeId, Node<T>>)
    requires id in heap
    ensures h.Keys == heap.Keys
    ensures h[id].data == heap[id].data && h[id].previous == heap[id].previous
    ensures h[id].next == next
    ensures LinksInside(heap) && Points(heap, next) ==> LinksInside(h)
    ensures forall k {:trigger heap[k]} {:trigger h[k]} :: k in heap && k != id ==> h[k] == heap[k]
  {
    heap[id := heap[id].(next := next)]
  }

  /** `updatePrevious`: only the `previous` link of node `id` changes. */
  function SetPrevious<T>(heap: map<NodeId, Node<T>>, id: NodeId, previous: Option<NodeId>): (h: map<NodeId, Node<T>>)
    requires id in heap
    ensures h.Keys == heap.Keys
    ensures h[id].data == heap[id].data && h[id].next == heap[id].next
    ensures h[id].previous == previous
    ensures LinksInside(heap) && Points(heap, previous) ==> LinksInside(h)
    ensures forall k {:trigger heap[k]} {:trigger h[k]} :: k in heap && k != id ==> h[k] == heap[k]
  {
    heap[id := heap[id].(previous := previous)]
  }

  /** `insert(data)`: a null or undefined payload is refused; otherwise a
      fresh node holding it, whose `next` is the old head and whose
      `previous` is null, becomes the head, the old head's `previous` is set
      to it, and its handle is returned. Nothing else changes. */
  function Insert<T>(l: List<T>, data: Option<T>): (r: Step<List<T>, NodeId>)
    ensures r.result.Err? <==> data.None?
    ensures r.result.Err? ==> r.result.error == BadParameter && r.state == l
    ensures r.result.Ok? ==>
      var n := r.result.value;
      && n !in l.heap
      && r.state.heap.Keys == l.heap.Keys + {n}
      && r.state.head == Some(n)
      && r.state.heap[n] == Node(data.value, l.head, None)
      && (l.head.Some? ==> r.state.heap[l.head.value] == l.heap[l.head.value].(previous := Some(n)))
      && (forall k {:trigger l.heap[k]} {:trigger r.state.heap[k]} :: k in l.heap && Some(k) != l.head ==> r.state.heap[k] == l.heap[k])
    ensures SamePayloads(l, r.state)
  {
    if data.None? then Step(l, Err(BadParameter))
    else
      var n := l.nextId;
      var heap := l.heap[n := Node(data.value, l.head, None)];
      var heap' := if l.head.Some? then SetPrevious(heap, l.head.value, Some(n)) else heap;
      Step(Arena(heap', Some(n), n + 1), Ok(n))
  }

  /** `delete(node)`: a null or undefined handle is refused. Deleting the
      head moves the head to its `next` and clears the new head's
      `previous`; deleting any other node points its predecessor's `next` at
      its successor and its successor's `previous` at its predecessor. The
      deleted node stays in the heap with its own links as they were. */
  function Delete<T>(l: List<T>, node: Option<NodeId>): (r: Step<List<T>, ()>)
    requires node.Some? ==> node.value in l.heap
    ensures r.result.Err? <==> node.None?
    ensures r.result.Err? ==> r.result.error == BadParameter && r.state == l
    ensures r.result.Ok? ==>
      var n := node.value;
      var p := l.heap[n].previous;
      var x := l.heap[n].next;
      && r.state.heap.Keys == l.heap.Keys
      && (l.head == Some(n) ==>
            && r.state.head == x
            && (x.Some? ==> r.state.heap[x.value] == l.heap[x.value].(previous := None)))
      && (l.head != Some(n) ==>
            && r.state.head == l.head
            && (p.Some? && p != x ==> r.state.heap[p.value] == l.heap[p.value].(next := x))
            && (x.Some? && x != p ==> r.state.heap[x.value] == l.heap[x.value].(previous := p)))
      && (p != Some(n) && x != Some(n) ==> r.state.heap[n] == l.heap[n])
      && (forall k {:trigger l.heap[k]} {:trigger r.state.heap[k]} :: k in l.heap && k != n && Some(k) != x && (l.head != Some(n) ==> Some(k) != p) ==>
            r.state.heap[k] == l.heap[k])
    ensures SamePayloads(l, r.state)
  {
    if node.None? then Step(l, Err(BadParameter))
    else
      var n := node.value;
      if l.head == Some(n) then
        var h := l.heap[n].next;
        var heap := if h.Some? then SetPrevious(l.heap, h.value, None) else l.heap;
        Step(Arena(heap, h, l.nextId), Ok(()))
      else
        var p := l.heap[n].previous;
        var x := l.heap[n].next;
        var heap := if p.Some? then SetNext(l.heap, p.value, x) else l.heap;
        var heap' := if x.Some? then SetPrevious(heap, x.value, p) else heap;
        Step(Arena(heap', l.head, l.nextId), Ok(()))
  }

  /** `insert` keeps links ordered: the new node has the largest id and
      links forward to the old head. */
  lemma InsertKeepsOrder<T>(l: List<T>, data: Option<T>)
    requires Ordered(l)
    ensures Ordered(Insert(l, data).state)
  {
  }

  /** `delete` keeps links ordered, whether or not the node is still in the
      list: it only links a predecessor to a successor and back. */
  lemma DeleteKeepsOrder<T>(l: List<T>, node: Option<NodeId>)
    requires Ordered(l) && (node.Some? ==> node.value in l.heap)
    ensures Ordered(Delete(l, node).state)
  {
  }

  /** The ids that `search`'s loop meets walking `next` from `cur` until
      null. On an ordered list the walk ends, chain or no chain. */
  function Follow<T>(l: List<T>, cur: Option<NodeId>): (r: seq<NodeId>)
    requires Ordered(l) && Points(l.heap, cur)
    ensures forall i :: 0 <= i < |r| ==> r[i] in l.heap
    ensures cur.Some? ==> |r| <= cur.value + 1
    ensures cur.None? <==> r == []
    decreases if cur.Some? then cur.value + 1 else 0
  {
    if cur.None? then [] else [cur.value] + Follow(l, l.heap[cur.value].next)
  }

  /** On a list with a chain, walking `next` from the `i`-th node meets
      exactly the rest of the chain. */
  lemma {:induction false} FollowSuffix<T>(l: List<T>, ids: seq<NodeId>, i: nat)
    requires Ordered(l) && IsChain(l, ids) && i <= |ids|
    ensures Points(l.heap, At(ids, i)) && Follow(l, At(ids, i)) == ids[i..]
    decreases |ids| - i
  {
    if i < |ids| {
      FollowSuffix(l, ids, i + 1);
      assert ids[i..] == [ids[i]] + ids[i + 1..];
    }
  }

  /** Walking `next` from the head of a list with a chain meets exactly that
      chain. */
  lemma FollowIsChain<T>(l: List<T>, ids: seq<NodeId>)
    requires Ordered(l) && IsChain(l, ids)
    ensures Follow(l, l.head) == ids
  {
    FollowSuffix(l, ids, 0);
  }

  /** The chain's ids are nodes of the heap, hence below `nextId`. */
  lemma ChainIdsAllocated<T>(l: List<T>, ids: seq<NodeId>)
    requires IsChain(l, ids)
    ensures l.nextId !in ids
  {
  }

  /** `insert` puts the new node in front of the chain, so the list's
      values gain the new payload at the head. */
  lemma InsertPrepends<T>(l: List<T>, ids: seq<NodeId>, x: T)
    requires IsChain(l, ids)
    ensures Insert(l, Some(x)).result.Ok?
    ensures IsChain(Insert(l, Some(x)).state, [Insert(l, Some(x)).result.value] + ids)
    ensures Values(Insert(l, Some(x)).state, [Insert(l, Some(x)).result.value] + ids) == [x] + Values(l, ids)
  {
    var r := Insert(l, Some(x));
    var n := r.result.value;
    var l' := r.state;
    ChainIdsAllocated(l, ids);
    PrependLinked(l.heap, l'.heap, ids, n);
    assert IsChain(l', [n] + ids);
    PrependValues(l, l', ids, n);
  }

  /** The relinking `insert` does, stated on heaps: a fresh node whose
      `next` is the old first id and whose `previous` is null, in front of
      a chain whose first node now points back to it, with every other node
      unchanged, gives a longer chain. */
  lemma PrependLinked<T>(h: map<NodeId, Node<T>>, h': map<NodeId, Node<T>>, ids: seq<NodeId>, n: NodeId)
    requires Linked(h, ids) && n !in h
    requires n in h' && h'[n].next == At(ids, 0) && h'[n].previous == None
    requires ids != [] ==> ids[0] in h' && h'[ids[0]] == h[ids[0]].(previous := Some(n))
    requires forall k {:trigger h[k]} {:trigger h'[k]} :: k in h && Some(k) != At(ids, 0) ==> k in h' && h'[k] == h[k]
    ensures Linked(h', [n] + ids)
  {
  }

  /** The payloads of a chain with one id put in front, when no payload of
      the old chain changed. */
  lemma PrependValues<T>(l: List<T>, l': List<T>, ids: seq<NodeId>, n: NodeId)
    requires IsChain(l, ids) && IsChain(l', [n] + ids)
    requires SamePayloads(l, l')
    ensures Values(l', [n] + ids) == [l'.heap[n].data] + Values(l, ids)
  {
    var ids' := [n] + ids;
    var vs := Values(l, ids);
    forall j | 0 <= j < |ids'|
      ensures Values(l', ids')[j] == ([l'.heap[n].data] + vs)[j]
    {
      if j > 0 {
        assert ids'[j] == ids[j - 1];
        assert vs[j - 1] == l.heap[ids[j - 1]].data;
      }
    }
  }

  /** Deleting the head: the chain loses its first id. */
  lemma DeleteHeadUnlinks<T>(l: List<T>, ids: seq<NodeId>)
    requires IsChain(l, ids) && 0 < |ids|
    ensures IsChain(Delete(l, Some(ids[0])).state, ids[1..])
  {
  }

  /** The relinking `delete` does around an inner node, stated on heaps:
      if the predecessor now skips to the successor and the successor points
      back to the predecessor, and nothing else changed, the chain without
      the `i`-th id is linked. */
  lemma RelinkAround<T>(h: map<NodeId, Node<T>>, h': map<NodeId, Node<T>>, ids: seq<NodeId>, i: nat)
    requires Linked(h, ids) && 0 < i < |ids|
    requires h'.Keys == h.Keys
    requires h'[ids[i - 1]] == h[ids[i - 1]].(next := At(ids, i + 1))
    requires i + 1 < |ids| ==> h'[ids[i + 1]] == h[ids[i + 1]].(previous := Some(ids[i - 1]))
    requires forall k {:trigger h[k]} {:trigger h'[k]} :: k in h && k != ids[i] && k != ids[i - 1] && Some(k) != At(ids, i + 1) ==>
      h'[k] == h[k]
    ensures Linked(h', ids[..i] + ids[i + 1..])
  {
    var ids' := ids[..i] + ids[i + 1..];
    forall j | 0 <= j < |ids'|
      ensures ids'[j] in h'
      ensures h'[ids'[j]].next == At(ids', j + 1)
      ensures h'[ids'[j]].previous == At(ids', j - 1)
    {
      if j < i - 1 {
        assert ids'[j] == ids[j];
        LinkedIdsDiffer(h, ids, j, i - 1);
        LinkedIdsDiffer(h, ids, j, i);
        if i + 1 < |ids| {
          LinkedIdsDiffer(h, ids, j, i + 1);
        }
        assert h'[ids[j]] == h[ids[j]];
        assert At(ids', j + 1) == At(ids, j + 1);
        assert At(ids', j - 1) == At(ids, j - 1);
      } else if j == i - 1 {
        assert ids'[j] == ids[i - 1];
        assert At(ids', j + 1) == At(ids, i + 1);
        assert At(ids', j - 1) == At(ids, i - 2);
      } else if j == i {
        assert ids'[j] == ids[i + 1];
        assert At(ids', j + 1) == At(ids, i + 2);
        assert At(ids', j - 1) == Some(ids[i - 1]);
      } else {
        assert ids'[j] == ids[j + 1];
        LinkedIdsDiffer(h, ids, i - 1, j + 1);
        LinkedIdsDiffer(h, ids, i, j + 1);
        LinkedIdsDiffer(h, ids, i + 1, j + 1);
        assert h'[ids[j + 1]] == h[ids[j + 1]];
        assert At(ids', j + 1) == At(ids, j + 2);
        assert At(ids', j - 1) == At(ids, j);
      }
    }
  }

  /** Deleting a node other than the head: its neighbours are linked to
      each other and the chain loses its `i`-th id. */
  lemma DeleteInnerUnlinks<T>(l: List<T>, ids: seq<NodeId>, i: nat)
    requires IsChain(l, ids) && 0 < i < |ids|
    ensures IsChain(Delete(l, Some(ids[i])).state, ids[..i] + ids[i + 1..])
  {
    var n := ids[i];
    var r := Delete(l, Some(n));
    var ids' := ids[..i] + ids[i + 1..];
    var p := Some(ids[i - 1]);
    var x := At(ids, i + 1);
    assert l.heap[n].previous == p;
    assert l.heap[n].next == x;
    assert l.head != Some(n) by { LinkedIdsDiffer(l.heap, ids, 0, i); }
    if i + 1 < |ids| {
      LinkedIdsDiffer(l.heap, ids, i - 1, i + 1);
    }
    assert r.result.Ok?;
    var h' := r.state.heap;
    assert h'.Keys == l.heap.Keys;
    assert h'[ids[i - 1]] == l.heap[ids[i - 1]].(next := x);
    assert x.Some? ==> h'[x.value] == l.heap[x.value].(previous := p);
    assert forall k {:trigger l.heap[k]} {:trigger h'[k]} :: k in l.heap && k != n && Some(k) != p && Some(k) != x ==> h'[k] == l.heap[k];
    RelinkAround(l.heap, h', ids, i);
    assert r.state.head == l.head;
  }

  /** Removing one id keeps a sequence of ids free of repeats. */
  lemma DistinctWithout(ids: seq<NodeId>, i: nat)
    requires Distinct(ids) && i < |ids|
    ensures Distinct(ids[..i] + ids[i + 1..])
    ensures ids[i] !in ids[..i] + ids[i + 1..]
  {
    var ids' := ids[..i] + ids[i + 1..];
    forall j | 0 <= j < |ids'|
      ensures ids'[j] == (if j < i then ids[j] else ids[j + 1])
    {
    }
  }

  /** Deleting the `i`-th node of the chain removes exactly that id from
      the chain and that payload from the values; the deleted node itself
      keeps its data and both links. */
  lemma DeleteUnlinks<T>(l: List<T>, ids: seq<NodeId>, i: nat)
    requires IsChain(l, ids) && i < |ids|
    ensures Delete(l, Some(ids[i])).result.Ok?
    ensures IsChain(Delete(l, Some(ids[i])).state, ids[..i] + ids[i + 1..])
    ensures Values(Delete(l, Some(ids[i])).state, ids[..i] + ids[i + 1..]) ==
      Values(l, ids)[..i] + Values(l, ids)[i + 1..]
    ensures ids[i] !in ids[..i] + ids[i + 1..]
    ensures Delete(l, Some(ids[i])).state.heap[ids[i]] == l.heap[ids[i]]
  {
    var l' := Delete(l, Some(ids[i])).state;
    var ids' := ids[..i] + ids[i + 1..];
    if i == 0 {
      assert ids' == ids[1..];
      DeleteHeadUnlinks(l, ids);
    } else {
      DeleteInnerUnlinks(l, ids, i);
    }
    LinkedIsDistinct(l.heap, ids);
    DistinctWithout(ids, i);
    assert l.heap[ids[i]].previous == At(ids, i - 1) && l.heap[ids[i]].next == At(ids, i + 1);
    SameData(l, l', ids, i);
  }

  /** `delete` never changes a payload, so the values of the shorter chain
      are the old values without the `i`-th. */
  lemma SameData<T>(l: List<T>, l': List<T>, ids: seq<NodeId>, i: nat)
    requires IsChain(l, ids) && i < |ids|
    requires IsChain(l', ids[..i] + ids[i + 1..])
    requires SamePayloads(l, l')
    ensures Values(l', ids[..i] + ids[i + 1..]) == Values(l, ids)[..i] + Values(l, ids)[i + 1..]
  {
    var ids' := ids[..i] + ids[i + 1..];
    forall j | 0 <= j < |ids'|
      ensures ids'[j] == (if j < i then ids[j] else ids[j + 1])
    {
    }
  }

  /** The first `k + 1` ids of two chains of the same list agree. */
  lemma {:induction false} ChainsAgreeAt<T>(l: List<T>, ids1: seq<NodeId>, ids2: seq<NodeId>, k: nat)
    requires IsChain(l, ids1) && IsChain(l, ids2)
    requires k < |ids1| && k < |ids2|
    ensures ids1[k] == ids2[k]
    decreases k
  {
    if k > 0 {
      ChainsAgreeAt(l, ids1, ids2, k - 1);
      assert l.heap[ids1[k - 1]].next == At(ids1, k);
      assert l.heap[ids2[k - 1]].next == At(ids2, k);
    }
  }

  /** The pointers determine the chain: two chains of the same list are
      the same sequence of ids. */
  lemma ChainUnique<T>(l: List<T>, ids1: seq<NodeId>, ids2: seq<NodeId>)
    requires IsChain(l, ids1) && IsChain(l, ids2)
    ensures ids1 == ids2
  {
    ShorterChainEnds(l, ids1, ids2);
    ShorterChainEnds(l, ids2, ids1);
    forall k | 0 <= k < |ids1|
      ensures ids1[k] == ids2[k]
    {
      ChainsAgreeAt(l, ids1, ids2, k);
    }
  }

  /** A chain cannot be a proper prefix of another: its last node's `next`
      is null. */
  lemma ShorterChainEnds<T>(l: List<T>, ids1: seq<NodeId>, ids2: seq<NodeId>)
    requires IsChain(l, ids1) && IsChain(l, ids2)
    ensures |ids1| >= |ids2|
  {
    if |ids1| < |ids2| {
      var m := |ids1|;
      if m > 0 {
        ChainsAgreeAt(l, ids1, ids2, m - 1);
      }
      assert false;
    }
  }

  /** The double-consistency of the chain: for two nodes of the list, `a`'s
      `next` is `b` exactly when `b`'s `previous` is `a`. */
  lemma LinksAgree<T>(l: List<T>, ids: seq<NodeId>, a: NodeId, b: NodeId)
    requires IsChain(l, ids) && a in ids && b in ids
    ensures l.heap[a].next == Some(b) <==> l.heap[b].previous == Some(a)
  {
  }

  /** The result `search(p)` promises: null when no node of the list
      holds a payload satisfying `p`, otherwise the first such node from
      the head. */
  ghost predicate Finds<T>(l: List<T>, ids: seq<NodeId>, p: T -> bool, found: Option<NodeId>)
    requires IsChain(l, ids)
  {
    match found
    case None => forall i {:trigger l.heap[ids[i]]} :: 0 <= i < |ids| ==> !p(l.heap[ids[i]].data)
    case Some(n) => exists i :: FirstAt(l, ids, p, i) && ids[i] == n
  }

  /** `ids[i]` is the first node of the chain whose payload satisfies `p`. */
  ghost predicate FirstAt<T>(l: List<T>, ids: seq<NodeId>, p: T -> bool, i: int)
    requires IsChain(l, ids)
  {
    && 0 <= i < |ids|
    && p(l.heap[ids[i]].data)
    && forall j {:trigger l.heap[ids[j]]} :: 0 <= j < i ==> !p(l.heap[ids[j]].data)
  }

  /** `search(comparator)`: a null or undefined comparator is refused;
      otherwise walk from the head along `next` and return the first node
      whose payload satisfies the comparator, or null. */
  method Search<T>(l: List<T>, comparator: Option<T -> bool>, ghost ids: seq<NodeId>) returns (r: Result<Option<NodeId>>)
    requires IsChain(l, ids)
    ensures r.Err? <==> comparator.None?
    ensures r.Err? ==> r.error == BadParameter
    ensures r.Ok? ==> Finds(l, ids, comparator.value, r.value)
  {
    if comparator.None? {
      return Err(BadParameter);
    }
    var p := comparator.value;
    var current := l.head;
    ghost var i := 0;
    while current.Some?
      invariant 0 <= i <= |ids|
      invariant current == At(ids, i)
      invariant forall j {:trigger l.heap[ids[j]]} :: 0 <= j < i ==> !p(l.heap[ids[j]].data)
      decreases |ids| - i
    {
      if p(l.heap[current.value].data) {
        assert FirstAt(l, ids, p, i);
        return Ok(current);
      }
      current := l.heap[current.value].next;
      i := i + 1;
    }
    return Ok(None);
  }

  /** Walking from the head along `next` collects the list's values in
      chain order. */
  method Traverse<T>(l: List<T>, ghost ids: seq<NodeId>) returns (vs: seq<T>)
    requires IsChain(l, ids)
    ensures vs == Values(l, ids)
  {
    ghost var values := Values(l, ids);
    vs := [];
    var current := l.head;
    ghost var i := 0;
    while current.Some?
      invariant 0 <= i <= |ids|
      invariant current == At(ids, i)
      invariant vs == values[..i]
      decreases |ids| - i
    {
      StepForward(l, ids, i);
      vs := vs + [l.heap[current.value].data];
      current := l.heap[current.value].next;
      i := i + 1;
    }
    assert values[..|ids|] == values;
  }

  /** Walking back from the tail along `previous` collects the list's
      values in reverse chain order. */
  method TraverseBack<T>(l: List<T>, tail: Option<NodeId>, ghost ids: seq<NodeId>) returns (vs: seq<T>)
    requires IsChain(l, ids)
    requires tail == At(ids, |ids| - 1)
    ensures vs == Reverse(Values(l, ids))
  {
    ghost var values := Values(l, ids);
    vs := [];
    var current := tail;
    ghost var i := |ids|;
    while current.Some?
      invariant 0 <= i <= |ids|
      invariant current == At(ids, i - 1)
      invariant vs == Reverse(values[i..])
      decreases i
    {
      StepBack(l, ids, i);
      vs := vs + [l.heap[current.value].data];
      current := l.heap[current.value].previous;
      i := i - 1;
    }
    assert values[0..] == values;
  }

  /** One step of the forward walk: the `i`-th node extends the values
      read so far, and its `next` is the following id. */
  lemma StepForward<T>(l: List<T>, ids: seq<NodeId>, i: nat)
    requires IsChain(l, ids) && i < |ids|
    ensures ids[i] in l.heap && l.heap[ids[i]].next == At(ids, i + 1)
    ensures Values(l, ids)[..i + 1] == Values(l, ids)[..i] + [l.heap[ids[i]].data]
  {
  }

  /** One step of the backward walk: the node before position `i` extends
      the reversed values read so far, and its `previous` is the id before. */
  lemma StepBack<T>(l: List<T>, ids: seq<NodeId>, i: nat)
    requires IsChain(l, ids) && 0 < i <= |ids|
    ensures ids[i - 1] in l.heap && l.heap[ids[i - 1]].previous == At(ids, i - 2)
    ensures Reverse(Values(l, ids)[i - 1..]) == Reverse(Values(l, ids)[i..]) + [l.heap[ids[i - 1]].data]
  {
  }

  /** Calling `insert` on each payload in turn (a `forEach` over them). */
  function InsertAll<T>(l: List<T>, xs: seq<T>): List<T>
    decreases |xs|
  {
    if xs == [] then l else InsertAll(Insert(l, Some(xs[0])).state, xs[1..])
  }

  /** Head insertion: after inserting a run of payloads, walking from the
      head visits them in reverse insertion order, then the older values. */
  lemma {:induction false} InsertAllReverses<T>(l: List<T>, ids: seq<NodeId>, xs: seq<T>) returns (ids': seq<NodeId>)
    requires IsChain(l, ids)
    ensures IsChain(InsertAll(l, xs), ids')
    ensures Values(InsertAll(l, xs), ids') == Reverse(xs) + Values(l, ids)
    decreases |xs|
  {
    if xs == [] {
      ids' := ids;
    } else {
      var r := Insert(l, Some(xs[0]));
      InsertPrepends(l, ids, xs[0]);
      var ids1 := [r.result.value] + ids;
      ids' := InsertAllReverses(r.state, ids1, xs[1..]);
      assert InsertAll(l, xs) == InsertAll(r.state, xs[1..]);
      ReverseShift(xs, Values(r.state, ids1), Values(l, ids));
    }
  }

  lemma ReverseShift<T>(xs: seq<T>, a: seq<T>, b: seq<T>)
    requires xs != [] && a == [xs[0]] + b
    ensures Reverse(xs[1..]) + a == Reverse(xs) + b
  {
    assert Reverse(xs) == Reverse(xs[1..]) + [xs[0]];
  }

  /** `search` over the chain `ids` of `l` can come back with `found`. */
  ghost predicate Searched<T>(l: List<T>, ids: seq<NodeId>, p: T -> bool, found: Option<NodeId>) {
    IsChain(l, ids) && Finds(l, ids, p, found)
  }

  /** A node that `delete` removed is never what `search` returns
      afterwards, and if no other node held a matching payload the search
      comes back null. The chain that the search walks exists by
      `DeleteUnlinks`. */
  lemma DeletedNotFound<T>(l: List<T>, ids: seq<NodeId>, i: nat, p: T -> bool, found: Option<NodeId>)
    requires IsChain(l, ids) && i < |ids|
    requires Searched(Delete(l, Some(ids[i])).state, ids[..i] + ids[i + 1..], p, found)
    ensures found != Some(ids[i])
    ensures (forall j {:trigger l.heap[ids[j]]} :: 0 <= j < |ids| && j != i ==> !p(l.heap[ids[j]].data)) ==> found == None
  {
    RemovedNotFound(l, Delete(l, Some(ids[i])).state, ids, i, p, found);
  }

  /** The same on any list whose chain is the old one without its `i`-th
      id and whose payloads are the old ones. */
  lemma RemovedNotFound<T>(l: List<T>, l': List<T>, ids: seq<NodeId>, i: nat, p: T -> bool, found: Option<NodeId>)
    requires IsChain(l, ids) && i < |ids|
    requires IsChain(l', ids[..i] + ids[i + 1..]) && SamePayloads(l, l')
    requires Finds(l', ids[..i] + ids[i + 1..], p, found)
    ensures found != Some(ids[i])
    ensures (forall j {:trigger l.heap[ids[j]]} :: 0 <= j < |ids| && j != i ==> !p(l.heap[ids[j]].data)) ==> found == None
  {
    var ids' := ids[..i] + ids[i + 1..];
    if found.Some? {
      var k :| FirstAt(l', ids', p, k) && ids'[k] == found.value;
      var j := if k < i then k else k + 1;
      assert ids'[k] == ids[j];
      if j < i {
        LinkedIdsDiffer(l.heap, ids, j, i);
      } else {
        LinkedIdsDiffer(l.heap, ids, i, j);
      }
      assert l'.heap[ids[j]].data == l.heap[ids[j]].data;
      assert p(l.heap[ids[j]].data);
    }
  }

  /** The ids of `ids`, in order, whose payload does not satisfy `p`. */
  ghost function Survivors<T>(l: List<T>, ids: seq<NodeId>, p: T -> bool): seq<NodeId>
    requires forall i :: 0 <= i < |ids| ==> ids[i] in l.heap
    decreases |ids|
  {
    if ids == [] then []
    else
      var last := ids[|ids| - 1];
      Survivors(l, ids[..|ids| - 1], p) + (if p(l.heap[last].data) then [] else [last])
  }

  /** A walk from the head along `next` that deletes each node whose
      payload satisfies `p` and then carries on from the deleted node's own
      `next`. Because `delete` leaves that link untouched the walk still
      visits every value, and the list ends up holding exactly the nodes
      whose payload does not satisfy `p`. */
  method DeleteWhileTraversing<T>(l: List<T>, p: T -> bool, ghost ids: seq<NodeId>) returns (l': List<T>, visited: seq<T>)
    requires IsChain(l, ids)
    ensures visited == Values(l, ids)
    ensures IsChain(l', Survivors(l, ids, p))
    ensures SamePayloads(l, l')
  {
    l' := l;
    visited := [];
    var current := l.head;
    ghost var i := 0;
    WalkStarts(l, ids, p);
    while current.Some?
      invariant 0 <= i <= |ids|
      invariant current == At(ids, i)
      invariant Walked(l, ids, p, i, l', visited)
      decreases |ids| - i
    {
      l', visited, current := Visit(l, ids, p, i, l', visited, current.value);
      i := i + 1;
    }
    WalkEnds(l, ids, p, l', visited);
  }

  lemma WalkStarts<T>(l: List<T>, ids: seq<NodeId>, p: T -> bool)
    requires IsChain(l, ids)
    ensures Walked(l, ids, p, 0, l, [])
  {
    assert [] + ids[0..] == ids;
  }

  lemma WalkEnds<T>(l: List<T>, ids: seq<NodeId>, p: T -> bool, l': List<T>, visited: seq<T>)
    requires IsChain(l, ids) && Walked(l, ids, p, |ids|, l', visited)
    ensures visited == Values(l, ids)
    ensures IsChain(l', Survivors(l, ids, p))
    ensures SamePayloads(l, l')
  {
    assert ids[..|ids|] == ids;
    assert Survivors(l, ids, p) + ids[|ids|..] == Survivors(l, ids, p);
  }

  /** One step of that walk: read the payload of node `n`, the `i`-th of
      the original chain, delete the node if the payload satisfies `p`, and
      move on along the node's own `next`. */
  method Visit<T>(ghost l: List<T>, ghost ids: seq<NodeId>, p: T -> bool, ghost i: nat,
                  m: List<T>, visited: seq<T>, n: NodeId)
    returns (m': List<T>, visited': seq<T>, next: Option<NodeId>)
    requires IsChain(l, ids) && i < |ids| && ids[i] == n
    requires Walked(l, ids, p, i, m, visited)
    ensures Walked(l, ids, p, i + 1, m', visited')
    ensures next == At(ids, i + 1)
  {
    assert (Survivors(l, ids[..i], p) + ids[i..])[|Survivors(l, ids[..i], p)|] == n;
    var data := m.heap[n].data;
    if p(data) {
      ghost var kept := Survivors(l, ids[..i], p);
      assert kept + [] == kept;
      m' := Delete(m, Some(n)).state;
      DeleteCurrent(m, kept, ids, i);
      WalkStep(l, ids, p, i, m, m', visited, data, kept);
    } else {
      VisitKeeps(l, ids, p, i, m, visited);
      m' := m;
    }
    next := m'.heap[n].next;
    visited' := visited + [data];
  }

  /** The walk's step on a node it keeps. */
  lemma VisitKeeps<T>(l: List<T>, ids: seq<NodeId>, p: T -> bool, i: nat, m: List<T>, visited: seq<T>)
    requires IsChain(l, ids) && i < |ids|
    requires Walked(l, ids, p, i, m, visited)
    requires ids[i] in m.heap && !p(m.heap[ids[i]].data)
    ensures Walked(l, ids, p, i + 1, m, visited + [m.heap[ids[i]].data])
    ensures m.heap[ids[i]].next == At(ids, i + 1)
  {
    var kept := Survivors(l, ids[..i], p);
    var rest := ids[i..];
    assert rest[0] == ids[i] && rest[1..] == ids[i + 1..];
    KeepCurrent(m, kept, rest);
    assert kept + rest == (kept + [ids[i]]) + ids[i + 1..];
    WalkStep(l, ids, p, i, m, m, visited, m.heap[ids[i]].data, kept + [ids[i]]);
  }

  /** Where that walk stands after `i` steps: it has collected the first
      `i` values, the list is the survivors among the first `i` ids
      followed by the ids not yet visited, and no payload has changed. */
  ghost predicate Walked<T>(l: List<T>, ids: seq<NodeId>, p: T -> bool, i: nat, l': List<T>, visited: seq<T>)
    requires IsChain(l, ids)
  {
    && i <= |ids|
    && visited == Values(l, ids)[..i]
    && IsChain(l', Survivors(l, ids[..i], p) + ids[i..])
    && SamePayloads(l, l')
  }

  /** One visit moves the walk from `i` steps to `i + 1`. */
  lemma WalkStep<T>(l: List<T>, ids: seq<NodeId>, p: T -> bool, i: nat, m: List<T>, m': List<T>,
                    visited: seq<T>, data: T, kept': seq<NodeId>)
    requires IsChain(l, ids) && i < |ids|
    requires Walked(l, ids, p, i, m, visited)
    requires ids[i] in m.heap && data == m.heap[ids[i]].data
    requires kept' == Survivors(l, ids[..i], p) + (if p(data) then [] else [ids[i]])
    requires IsChain(m', kept' + ids[i + 1..])
    requires SamePayloads(m, m')
    ensures Walked(l, ids, p, i + 1, m', visited + [data])
  {
    assert data == l.heap[ids[i]].data;
    SurvivorsStep(l, ids, p, i);
    SamePayloadsTransitive(l, m, m');
    var vs := Values(l, ids);
    assert vs[..i + 1] == vs[..i] + [vs[i]];
  }

  lemma SurvivorsStep<T>(l: List<T>, ids: seq<NodeId>, p: T -> bool, i: nat)
    requires IsChain(l, ids) && i < |ids|
    ensures Survivors(l, ids[..i + 1], p) ==
      Survivors(l, ids[..i], p) + (if p(l.heap[ids[i]].data) then [] else [ids[i]])
  {
    assert ids[..i + 1][..i] == ids[..i];
  }

  /** Every node of `a` is still a node of `b`, with the same payload. */
  ghost predicate SamePayloads<T>(a: List<T>, b: List<T>) {
    forall k {:trigger a.heap[k]} {:trigger b.heap[k]} :: k in a.heap ==> k in b.heap && b.heap[k].data == a.heap[k].data
  }

  lemma SamePayloadsTransitive<T>(a: List<T>, b: List<T>, c: List<T>)
    requires SamePayloads(a, b) && SamePayloads(b, c)
    ensures SamePayloads(a, c)
  {
    forall k | k in a.heap
      ensures k in c.heap && c.heap[k].data == a.heap[k].data
    {
      assert b.heap[k].data == a.heap[k].data;
    }
  }

  /** The walk's step when it deletes the node it stands on: the chain
      loses that node, whose `next` still leads to the rest of the chain. */
  lemma DeleteCurrent<T>(m: List<T>, kept: seq<NodeId>, ids: seq<NodeId>, i: nat)
    requires i < |ids| && IsChain(m, kept + ids[i..]) && ids[i] in m.heap
    ensures IsChain(Delete(m, Some(ids[i])).state, kept + ids[i + 1..])
    ensures Delete(m, Some(ids[i])).state.heap[ids[i]].next == At(ids, i + 1)
    ensures SamePayloads(m, Delete(m, Some(ids[i])).state)
  {
    var rest := ids[i..];
    assert rest[0] == ids[i] && rest[1..] == ids[i + 1..];
    assert At(rest, 1) == At(ids, i + 1);
    var chain := kept + rest;
    assert chain[|kept|] == rest[0];
    DeleteUnlinks(m, chain, |kept|);
    assert chain[..|kept|] + chain[|kept| + 1..] == kept + rest[1..];
    assert m.heap[chain[|kept|]].next == At(chain, |kept| + 1);
  }

  /** The walk's step when it keeps the node it stands on. */
  lemma KeepCurrent<T>(m: List<T>, kept: seq<NodeId>, rest: seq<NodeId>)
    requires IsChain(m, kept + rest) && rest != [] && rest[0] in m.heap
    ensures (kept + [rest[0]]) + rest[1..] == kept + rest
    ensures m.heap[rest[0]].next == At(rest, 1)
  {
    var chain := kept + rest;
    assert chain[|kept|] == rest[0];
    assert m.heap[chain[|kept|]].next == At(chain, |kept| + 1);
  }

  /** Deleting the middle one of three nodes: the head now links forward
      to the old tail, which links back to the head and ends the list, and
      the head's `previous` stays null. */
  lemma DeleteMiddle<T>(l: List<T>, ids: seq<NodeId>)
    requires IsChain(l, ids) && |ids| == 3
    ensures var l' := Delete(l, Some(ids[1])).state;
      && l'.head == Some(ids[0])
      && l'.heap[ids[0]].next == Some(ids[2]) && l'.heap[ids[0]].previous == None
      && l'.heap[ids[2]].next == None && l'.heap[ids[2]].previous == Some(ids[0])
      && l'.heap[ids[0]].data == l.heap[ids[0]].data && l'.heap[ids[2]].data == l.heap[ids[2]].data
  {
  }

  /** `delete` trusts its caller to pass a node of the list: deleting the
      middle of three nodes, then the head, then the middle node again
      relinks through the stale handle's old neighbours, and the head ends
      up with a non-null `previous`, so no chain describes the list. */
  lemma RedeleteBreaksChain<T>(l: List<T>, a: NodeId, b: NodeId, c: NodeId)
    requires IsChain(l, [a, b, c])
    ensures var l1 := Delete(l, Some(b)).state;
      var l2 := Delete(l1, Some(a)).state;
      b in l2.heap &&
      var l3 := Delete(l2, Some(b)).state;
      && l3.head == Some(c) && l3.heap[c].previous == Some(a)
      && forall ids :: !IsChain(l3, ids)
  {
  }
}
