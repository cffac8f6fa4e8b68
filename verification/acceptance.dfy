/** The linked-list acceptance scenario (src/__test__/acceptance/
    linkedlist.acceptance.ts): insert four strings, walk the list from the
    head deleting "fifteen" on the way, walk back from the tail, then search
    for "fifteen" and for "five". The console output is not modelled: each
    method returns the payloads each walk visits, in order, and the search
    results. With `node.data()` called, as in `Scenario`, these are what the
    script prints. */
module Acceptance {
  import opened Wrappers
  import opened Sequences
  import opened LinkedLists

  /** Lines 4-9: a new list and four head insertions, newest first. */
  method Build() returns (l: List<string>, n20: NodeId, n15: NodeId, n10: NodeId, n5: NodeId)
    ensures IsChain(l, [n20, n15, n10, n5])
    ensures Values(l, [n20, n15, n10, n5]) == ["twenty", "fifteen", "ten", "five"]
  {
    var l0 := Empty<string>();
    InsertPrepends(l0, [], "five");
    var r := Insert(l0, Some("five"));
    n5 := r.result.value;
    assert [n5] + [] == [n5];
    var l1 := r.state;

    InsertPrepends(l1, [n5], "ten");
    r := Insert(l1, Some("ten"));
    n10 := r.result.value;
    var l2 := r.state;
    assert [n10] + [n5] == [n10, n5];

    InsertPrepends(l2, [n10, n5], "fifteen");
    r := Insert(l2, Some("fifteen"));
    n15 := r.result.value;
    var l3 := r.state;
    assert [n15] + [n10, n5] == [n15, n10, n5];

    InsertPrepends(l3, [n15, n10, n5], "twenty");
    r := Insert(l3, Some("twenty"));
    n20 := r.result.value;
    l := r.state;
    assert [n20] + [n15, n10, n5] == [n20, n15, n10, n5];
  }

  /** Which nodes a walk that deletes the nodes satisfying `p` keeps, for
      the four nodes of the scenario. */
  lemma SurvivorsOfFour(l: List<string>, ids: seq<NodeId>, p: string -> bool)
    requires IsChain(l, ids) && |ids| == 4
    ensures Survivors(l, ids, p) ==
      (if p(l.heap[ids[0]].data) then [] else [ids[0]]) +
      (if p(l.heap[ids[1]].data) then [] else [ids[1]]) +
      (if p(l.heap[ids[2]].data) then [] else [ids[2]]) +
      (if p(l.heap[ids[3]].data) then [] else [ids[3]])
  {
    assert ids[..4] == ids;
    SurvivorsStep(l, ids, p, 3);
    SurvivorsStep(l, ids, p, 2);
    SurvivorsStep(l, ids, p, 1);
    SurvivorsStep(l, ids, p, 0);
    assert ids[..0] == [];
  }

  /** The scenario as intended (lines 6-37 with `node.data()` called): the
      forward walk prints all four values although it deletes "fifteen"
      mid-walk, the backward walk from the tail prints the three that are
      left, "fifteen" is no longer found and "five" is. */
  method Scenario() returns (l: List<string>, forward: seq<string>, backward: seq<string>,
                             fifteen: Result<Option<NodeId>>, five: Result<Option<NodeId>>)
    ensures forward == ["twenty", "fifteen", "ten", "five"]
    ensures backward == ["five", "ten", "twenty"]
    ensures fifteen == Ok(None)
    ensures five.Ok? && five.value.Some? && five.value.value in l.heap
    ensures l.heap[five.value.value].data == "five"
  {
    var l0, n20, n15, n10, n5 := Build();
    ghost var ids := [n20, n15, n10, n5];
    var isFifteen := (x: string) => x == "fifteen";
    l, forward := DeleteWhileTraversing(l0, isFifteen, ids);
    SurvivorsOfFour(l0, ids, isFifteen);
    ghost var vs := Values(l0, ids);
    assert vs[0] == l0.heap[n20].data && vs[1] == l0.heap[n15].data;
    assert vs[2] == l0.heap[n10].data && vs[3] == l0.heap[n5].data;
    ghost var chain := [n20, n10, n5];
    assert Survivors(l0, ids, isFifteen) == chain;
    assert l.heap[n20].data == "twenty" && l.heap[n10].data == "ten" && l.heap[n5].data == "five";
    assert Values(l, chain) == ["twenty", "ten", "five"];
    // Lines 21 and 26-29: the last node the walk visits, the node of
    // "five", is the tail; walk back from it.
    backward := TraverseBack(l, Some(n5), chain);
    assert Reverse(["twenty", "ten", "five"]) == ["five", "ten", "twenty"];
    fifteen := Search(l, Some(isFifteen), chain);
    assert forall i | 0 <= i < 3 :: !isFifteen(l.heap[chain[i]].data);
    var isFive := (x: string) => x == "five";
    five := Search(l, Some(isFive), chain);
    assert !isFive(l.heap[chain[0]].data) && isFive(l.heap[chain[2]].data);
    assert five.value != None;
    ghost var k :| FirstAt(l, chain, isFive, k) && chain[k] == five.value.value;
  }

  /** The scenario as the script is written: line 18 compares the accessor
      `node.data` itself, not its result, with "fifteen", which is never
      true, so nothing is deleted. The backward walk then visits all four
      nodes and the search for "fifteen" finds its node, so line 33 never
      prints "fifteen was not found". Lines 15 and 27 log the accessor too,
      so `forward` and `backward` are the payloads visited, not the text
      logged. */
  method ScenarioAsWritten() returns (l: List<string>, forward: seq<string>, backward: seq<string>,
                                      fifteen: Result<Option<NodeId>>)
    ensures forward == ["twenty", "fifteen", "ten", "five"]
    ensures backward == ["five", "ten", "fifteen", "twenty"]
    ensures fifteen.Ok? && fifteen.value.Some? && fifteen.value.value in l.heap
    ensures l.heap[fifteen.value.value].data == "fifteen"
  {
    var l0, n20, n15, n10, n5 := Build();
    ghost var ids := [n20, n15, n10, n5];
    var accessorIsFifteen := (x: string) => false;
    l, forward := DeleteWhileTraversing(l0, accessorIsFifteen, ids);
    SurvivorsOfFour(l0, ids, accessorIsFifteen);
    assert Survivors(l0, ids, accessorIsFifteen) == ids;
    ghost var vs := Values(l0, ids);
    assert vs[0] == l0.heap[n20].data && vs[1] == l0.heap[n15].data;
    assert vs[2] == l0.heap[n10].data && vs[3] == l0.heap[n5].data;
    assert l.heap[n20].data == "twenty" && l.heap[n15].data == "fifteen";
    assert l.heap[n10].data == "ten" && l.heap[n5].data == "five";
    assert Values(l, ids) == ["twenty", "fifteen", "ten", "five"];
    backward := TraverseBack(l, Some(n5), ids);
    assert Reverse(["twenty", "fifteen", "ten", "five"]) == ["five", "ten", "fifteen", "twenty"];
    var isFifteen := (x: string) => x == "fifteen";
    fifteen := Search(l, Some(isFifteen), ids);
    assert isFifteen(l.heap[ids[1]].data);
    assert fifteen.value != None;
    ghost var k :| FirstAt(l, ids, isFifteen, k) && ids[k] == fifteen.value.value;
  }
}
