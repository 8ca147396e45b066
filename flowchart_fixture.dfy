/**
 * The two functions the flow-chart tests use, written out as charts, and
 * what find_block, blocks() and get_paths() give on them.
 *
 * Five: five blocks from 0x403597 to 0x4035BD; the entry block branches to
 * the second and the last block, the second to the third and the fourth,
 * and the third and fourth fall through towards the last.
 * One: a single block 0x401150 to 0x4012A0 with no edges.
 */
module FlowChartFixture {
  import opened Wrappers
  import opened FlowChart

  const A0: nat := 0x403597
  const A1: nat := 0x4035AB
  const A2: nat := 0x4035B1
  const A3: nat := 0x4035B3
  const A4: nat := 0x4035BA
  const AEnd: nat := 0x4035BD

  function Five(): FlowChart {
    FlowChart(A0,
      [Block(A0, A1), Block(A1, A2), Block(A2, A3), Block(A3, A4), Block(A4, AEnd)],
      map[A0 := [A1, A4], A1 := [A2, A3], A2 := [A3], A3 := [A4], A4 := []],
      map[A0 := [], A1 := [A0], A2 := [A1], A3 := [A2, A1], A4 := [A3, A0]])
  }

  function One(): FlowChart {
    FlowChart(0x401150, [Block(0x401150, 0x4012A0)], map[0x401150 := []], map[0x401150 := []])
  }

  // ---- evaluation steps ----

  /** A traversal step that yields the first block of the work. */
  lemma Yield(fc: FlowChart, reverse: bool, dfs: bool, work: seq<nat>, visited: set<nat>, next: seq<nat>, visited': set<nat>)
    requires work != [] && !Skipped(fc, visited, work[0])
    requires NextWork(fc, reverse, dfs, work) == next && visited' == visited + {work[0]}
    ensures Walk(fc, reverse, dfs, work, visited) == [work[0]] + Walk(fc, reverse, dfs, next, visited')
  {
    WalkStep(fc, reverse, dfs, work, visited);
  }

  /** A traversal step that skips the first block of the work. */
  lemma Skip(fc: FlowChart, reverse: bool, dfs: bool, work: seq<nat>, visited: set<nat>, rest: seq<nat>)
    requires work != [] && Skipped(fc, visited, work[0]) && rest == work[1..]
    ensures Walk(fc, reverse, dfs, work, visited) == Walk(fc, reverse, dfs, rest, visited)
  {
  }

  /** Once every block of the work has been visited, the traversal yields
      nothing more. */
  lemma {:induction false} WalkDone(fc: FlowChart, reverse: bool, dfs: bool, work: seq<nat>, visited: set<nat>)
    requires forall i :: 0 <= i < |work| ==> work[i] in visited
    ensures Walk(fc, reverse, dfs, work, visited) == []
    decreases |work|
  {
    if work != [] {
      assert work[0] in visited;
      WalkDone(fc, reverse, dfs, work[1..], visited);
    }
  }

  /** The path search through the predecessors ps of b. */
  lemma Through(fc: FlowChart, b: nat, avoid: set<nat>, avoid': set<nat>, rs: seq<seq<nat>>, out: seq<seq<nat>>)
    requires Graph(fc) && b in fc.succs && b !in avoid && Pred(fc, b) != []
    requires avoid' == avoid + {b} && BackAll(fc, Pred(fc, b), avoid') == rs
    requires |out| == |rs| && forall i :: 0 <= i < |rs| ==> out[i] == rs[i] + [b]
    ensures Back(fc, b, avoid) == out
  {
  }

  /** The path search through a list of predecessors, first then rest. */
  lemma Each(fc: FlowChart, ps: seq<nat>, avoid: set<nat>, first: seq<seq<nat>>, rest: seq<seq<nat>>)
    requires Graph(fc) && InNodes(fc, ps) && ps != [] && ps[0] !in avoid
    requires Back(fc, ps[0], avoid) == first && BackAll(fc, ps[1..], avoid) == rest
    ensures BackAll(fc, ps, avoid) == first + rest
  {
  }

  /** blocks() assembled from its parts: the roots and the traversal. */
  lemma Order(fc: FlowChart, start: Option<nat>, reverse: bool, dfs: bool, roots: seq<nat>, out: seq<nat>)
    requires Valid(fc)
    requires Roots(fc, start, reverse) == Some(roots)
    requires Walk(fc, reverse, dfs, roots, {}) == out
    requires InStarts(fc, out)
    ensures BlockOrder(fc, start, reverse, dfs) == Some(BlocksOf(fc, out))
  {
  }

  /** r holds exactly the blocks bs, in order (given index by index). */
  predicate Lists(r: Option<seq<Block>>, b0: Block, b1: Block, b2: Block, b3: Block, b4: Block) {
    && r.Some? && |r.value| == 5
    && r.value[0] == b0 && r.value[1] == b1 && r.value[2] == b2 && r.value[3] == b3 && r.value[4] == b4
  }

  // ---- the charts are valid ----

  lemma FiveStarts()
    ensures Starts(Five()) == {A0, A1, A2, A3, A4} == Nodes(Five())
  {
    var f := Five();
    assert f.blocks[0].start == A0 && f.blocks[1].start == A1 && f.blocks[2].start == A2;
    assert f.blocks[3].start == A3 && f.blocks[4].start == A4;
  }

  lemma FiveEdgesAgree()
    ensures EdgesAgree(Five())
  {
    var f := Five();
    forall a, b ensures b in Succ(f, a) <==> a in Pred(f, b) {
      if b in Succ(f, a) {
        assert a in f.succs;
      }
      if a in Pred(f, b) {
        assert b in f.preds;
      }
    }
  }

  lemma FiveOrdered()
    ensures Ordered(Five())
  {
  }

  lemma FiveGraph()
    ensures Graph(Five()) && PredsDistinct(Five())
  {
  }

  /** The five-block chart satisfies what the model assumes of a chart. */
  lemma FiveValid()
    ensures Valid(Five())
  {
    FiveOrdered();
    FiveGraph();
    FiveStarts();
    FiveEdgesAgree();
  }

  lemma OneValid()
    ensures Valid(One())
  {
    var g := One();
    assert Starts(g) == {0x401150};
  }

  /** find_block(0x4035AD) is the block starting at 0x4035AB. */
  lemma FiveFindBlock()
    ensures FindBlock(Five(), 0x4035AD) == Some(Block(A1, A2))
  {
  }

  lemma FiveTerminals()
    ensures Terminals(Five()) == [A4]
  {
    var f := Five();
    assert TerminalsIn(f, f.blocks[4..]) == [A4];
    assert TerminalsIn(f, f.blocks[3..]) == [A4];
    assert TerminalsIn(f, f.blocks[2..]) == [A4];
    assert TerminalsIn(f, f.blocks[1..]) == [A4];
  }

  lemma FiveBlockAt()
    ensures BlockAt(Five(), A0) == Block(A0, A1) && BlockAt(Five(), A1) == Block(A1, A2)
    ensures BlockAt(Five(), A2) == Block(A2, A3) && BlockAt(Five(), A3) == Block(A3, A4)
    ensures BlockAt(Five(), A4) == Block(A4, AEnd)
  {
    FiveOrdered();
    BlockAtIndex(Five(), 0);
    BlockAtIndex(Five(), 1);
    BlockAtIndex(Five(), 2);
    BlockAtIndex(Five(), 3);
    BlockAtIndex(Five(), 4);
  }

  // ---- the traversals ----

  lemma FiveBreadthFirst()
    ensures Walk(Five(), false, false, [A0], {}) == [A0, A1, A4, A2, A3]
  {
    var f := Five();
    Yield(f, false, false, [A0], {}, [A1, A4], {A0});
    Yield(f, false, false, [A1, A4], {A0}, [A4, A2, A3], {A0, A1});
    FiveBreadthFirstTail();
  }

  lemma FiveBreadthFirstTail()
    ensures Walk(Five(), false, false, [A4, A2, A3], {A0, A1}) == [A4, A2, A3]
  {
    var f := Five();
    Yield(f, false, false, [A4, A2, A3], {A0, A1}, [A2, A3], {A0, A1, A4});
    Yield(f, false, false, [A2, A3], {A0, A1, A4}, [A3, A3], {A0, A1, A4, A2});
    Yield(f, false, false, [A3, A3], {A0, A1, A4, A2}, [A3, A4], {A0, A1, A4, A2, A3});
    WalkDone(f, false, false, [A3, A4], {A0, A1, A4, A2, A3});
  }

  lemma FiveDepthFirst()
    ensures Walk(Five(), false, true, [A0], {}) == [A0, A1, A2, A3, A4]
  {
    var f := Five();
    Yield(f, false, true, [A0], {}, [A1, A4], {A0});
    Yield(f, false, true, [A1, A4], {A0}, [A2, A3, A4], {A0, A1});
    FiveDepthFirstTail();
  }

  lemma FiveDepthFirstTail()
    ensures Walk(Five(), false, true, [A2, A3, A4], {A0, A1}) == [A2, A3, A4]
  {
    var f := Five();
    Yield(f, false, true, [A2, A3, A4], {A0, A1}, [A3, A3, A4], {A0, A1, A2});
    Yield(f, false, true, [A3, A3, A4], {A0, A1, A2}, [A4, A3, A4], {A0, A1, A2, A3});
    Yield(f, false, true, [A4, A3, A4], {A0, A1, A2, A3}, [A3, A4], {A0, A1, A2, A3, A4});
    WalkDone(f, false, true, [A3, A4], {A0, A1, A2, A3, A4});
  }

  lemma FiveReverseBreadthFirst()
    ensures Walk(Five(), true, false, [A4], {}) == [A4, A3, A0, A2, A1]
  {
    var f := Five();
    Yield(f, true, false, [A4], {}, [A3, A0], {A4});
    Yield(f, true, false, [A3, A0], {A4}, [A0, A2, A1], {A4, A3});
    FiveReverseBreadthFirstTail();
  }

  lemma FiveReverseBreadthFirstTail()
    ensures Walk(Five(), true, false, [A0, A2, A1], {A4, A3}) == [A0, A2, A1]
  {
    var f := Five();
    Yield(f, true, false, [A0, A2, A1], {A4, A3}, [A2, A1], {A4, A3, A0});
    Yield(f, true, false, [A2, A1], {A4, A3, A0}, [A1, A1], {A4, A3, A0, A2});
    Yield(f, true, false, [A1, A1], {A4, A3, A0, A2}, [A1, A0], {A4, A3, A0, A2, A1});
    WalkDone(f, true, false, [A1, A0], {A4, A3, A0, A2, A1});
  }

  lemma FiveReverseDepthFirst()
    ensures Walk(Five(), true, true, [A4], {}) == [A4, A3, A2, A1, A0]
  {
    var f := Five();
    Yield(f, true, true, [A4], {}, [A3, A0], {A4});
    Yield(f, true, true, [A3, A0], {A4}, [A2, A1, A0], {A4, A3});
    FiveReverseDepthFirstTail();
  }

  lemma FiveReverseDepthFirstTail()
    ensures Walk(Five(), true, true, [A2, A1, A0], {A4, A3}) == [A2, A1, A0]
  {
    var f := Five();
    Yield(f, true, true, [A2, A1, A0], {A4, A3}, [A1, A1, A0], {A4, A3, A2});
    Yield(f, true, true, [A1, A1, A0], {A4, A3, A2}, [A0, A1, A0], {A4, A3, A2, A1});
    Yield(f, true, true, [A0, A1, A0], {A4, A3, A2, A1}, [A1, A0], {A4, A3, A2, A1, A0});
    WalkDone(f, true, true, [A1, A0], {A4, A3, A2, A1, A0});
  }

  lemma FiveBackFromSecond()
    ensures Walk(Five(), true, false, [A1], {}) == [A1, A0]
  {
    var f := Five();
    Yield(f, true, false, [A1], {}, [A0], {A1});
    Yield(f, true, false, [A0], {A1}, [], {A1, A0});
  }

  lemma FiveOnFromSecond()
    ensures Walk(Five(), false, false, [A1], {}) == [A1, A2, A3, A4]
  {
    var f := Five();
    Yield(f, false, false, [A1], {}, [A2, A3], {A1});
    Yield(f, false, false, [A2, A3], {A1}, [A3, A3], {A1, A2});
    Yield(f, false, false, [A3, A3], {A1, A2}, [A3, A4], {A1, A2, A3});
    Skip(f, false, false, [A3, A4], {A1, A2, A3}, [A4]);
    Yield(f, false, false, [A4], {A1, A2, A3}, [], {A1, A2, A3, A4});
  }

  // ---- blocks() ----

  lemma BlocksBreadthFirst()
    ensures InStarts(Five(), [A0, A1, A4, A2, A3])
    ensures Lists(Some(BlocksOf(Five(), [A0, A1, A4, A2, A3])),
                  Block(A0, A1), Block(A1, A2), Block(A4, AEnd), Block(A2, A3), Block(A3, A4))
  {
    FiveStarts();
    FiveBlockAt();
  }

  /** blocks(): breadth-first from the entry block. */
  lemma FiveBlocksBreadthFirst()
    ensures Valid(Five())
    ensures Lists(BlockOrder(Five(), None, false, false),
                  Block(A0, A1), Block(A1, A2), Block(A4, AEnd), Block(A2, A3), Block(A3, A4))
  {
    FiveValid();
    FiveBreadthFirst();
    BlocksBreadthFirst();
    Order(Five(), None, false, false, [A0], [A0, A1, A4, A2, A3]);
  }

  lemma BlocksDepthFirst()
    ensures InStarts(Five(), [A0, A1, A2, A3, A4])
    ensures Lists(Some(BlocksOf(Five(), [A0, A1, A2, A3, A4])),
                  Block(A0, A1), Block(A1, A2), Block(A2, A3), Block(A3, A4), Block(A4, AEnd))
  {
    FiveStarts();
    FiveBlockAt();
  }

  /** blocks(dfs=True): depth-first from the entry block. */
  lemma FiveBlocksDepthFirst()
    ensures Valid(Five())
    ensures Lists(BlockOrder(Five(), None, false, true),
                  Block(A0, A1), Block(A1, A2), Block(A2, A3), Block(A3, A4), Block(A4, AEnd))
  {
    FiveValid();
    FiveDepthFirst();
    BlocksDepthFirst();
    Order(Five(), None, false, true, [A0], [A0, A1, A2, A3, A4]);
  }

  lemma BlocksReverseBreadthFirst()
    ensures InStarts(Five(), [A4, A3, A0, A2, A1])
    ensures Lists(Some(BlocksOf(Five(), [A4, A3, A0, A2, A1])),
                  Block(A4, AEnd), Block(A3, A4), Block(A0, A1), Block(A2, A3), Block(A1, A2))
  {
    FiveStarts();
    FiveBlockAt();
  }

  /** blocks(reverse=True): breadth-first back from the block with no
      successors. */
  lemma FiveBlocksReverseBreadthFirst()
    ensures Valid(Five())
    ensures Lists(BlockOrder(Five(), None, true, false),
                  Block(A4, AEnd), Block(A3, A4), Block(A0, A1), Block(A2, A3), Block(A1, A2))
  {
    FiveValid();
    FiveTerminals();
    FiveReverseBreadthFirst();
    BlocksReverseBreadthFirst();
    Order(Five(), None, true, false, [A4], [A4, A3, A0, A2, A1]);
  }

  lemma BlocksReverseDepthFirst()
    ensures InStarts(Five(), [A4, A3, A2, A1, A0])
    ensures Lists(Some(BlocksOf(Five(), [A4, A3, A2, A1, A0])),
                  Block(A4, AEnd), Block(A3, A4), Block(A2, A3), Block(A1, A2), Block(A0, A1))
  {
    FiveStarts();
    FiveBlockAt();
  }

  /** blocks(reverse=True, dfs=True): depth-first back from the block with
      no successors. */
  lemma FiveBlocksReverseDepthFirst()
    ensures Valid(Five())
    ensures Lists(BlockOrder(Five(), None, true, true),
                  Block(A4, AEnd), Block(A3, A4), Block(A2, A3), Block(A1, A2), Block(A0, A1))
  {
    FiveValid();
    FiveTerminals();
    FiveReverseDepthFirst();
    BlocksReverseDepthFirst();
    Order(Five(), None, true, true, [A4], [A4, A3, A2, A1, A0]);
  }

  lemma BlocksBackFromSecond()
    ensures InStarts(Five(), [A1, A0])
    ensures BlocksOf(Five(), [A1, A0]) == [Block(A1, A2), Block(A0, A1)]
  {
    FiveStarts();
    FiveBlockAt();
  }

  /** blocks(start=0x4035AB, reverse=True) gives that block and the entry
      block. */
  lemma FiveBlocksBackFromSecond()
    ensures Valid(Five())
    ensures BlockOrder(Five(), Some(A1), true, false) == Some([Block(A1, A2), Block(A0, A1)])
  {
    FiveValid();
    FiveOrdered();
    FindBlockUnique(Five(), A1, Block(A1, A2));
    FiveBackFromSecond();
    BlocksBackFromSecond();
    Order(Five(), Some(A1), true, false, [A1], [A1, A0]);
  }

  lemma BlocksOnFromSecond()
    ensures InStarts(Five(), [A1, A2, A3, A4])
    ensures multiset(BlocksOf(Five(), [A1, A2, A3, A4]))
         == multiset{Block(A1, A2), Block(A4, AEnd), Block(A2, A3), Block(A3, A4)}
  {
    FiveStarts();
    FiveBlockAt();
    Four(BlocksOf(Five(), [A1, A2, A3, A4]));
  }

  /** A list holding the last four blocks, in any order given index by
      index, has the same multiset as the listing order of the host. */
  lemma Four(r: seq<Block>)
    requires |r| == 4
    requires r[0] == Block(A1, A2) && r[1] == Block(A2, A3) && r[2] == Block(A3, A4) && r[3] == Block(A4, AEnd)
    ensures multiset(r) == multiset{Block(A1, A2), Block(A4, AEnd), Block(A2, A3), Block(A3, A4)}
  {
    assert r == [Block(A1, A2), Block(A2, A3), Block(A3, A4), Block(A4, AEnd)];
  }

  /** blocks(start=0x4035AB) gives the four blocks from it on. */
  lemma FiveBlocksOnFromSecond()
    ensures Valid(Five())
    ensures var r := BlockOrder(Five(), Some(A1), false, false);
            r.Some? && multiset(r.value) == multiset{Block(A1, A2), Block(A4, AEnd), Block(A2, A3), Block(A3, A4)}
  {
    FiveValid();
    FiveOrdered();
    FindBlockUnique(Five(), A1, Block(A1, A2));
    FiveOnFromSecond();
    BlocksOnFromSecond();
    Order(Five(), Some(A1), false, false, [A1], [A1, A2, A3, A4]);
  }

  lemma OneBlocksOf()
    ensures InStarts(One(), [0x401150])
    ensures BlocksOf(One(), [0x401150]) == [Block(0x401150, 0x4012A0)]
  {
    BlockAtIndex(One(), 0);
  }

  /** The single-block function: blocks() gives its one block. */
  lemma OneBlocks()
    ensures Valid(One())
    ensures BlockOrder(One(), None, false, false) == Some([Block(0x401150, 0x4012A0)])
  {
    OneValid();
    OneWalk();
    OneBlocksOf();
    Order(One(), None, false, false, [0x401150], [0x401150]);
  }

  lemma OneWalk()
    ensures Walk(One(), false, false, [0x401150], {}) == [0x401150]
  {
    Yield(One(), false, false, [0x401150], {}, [], {0x401150});
  }

  // ---- get_paths() ----

  lemma FiveToSecond(avoid: set<nat>)
    requires A0 !in avoid && A1 !in avoid
    ensures Back(Five(), A1, avoid) == [[A0, A1]]
  {
    var f := Five();
    FiveGraph();
    Each(f, [A0], avoid + {A1}, [[A0]], []);
    Through(f, A1, avoid, avoid + {A1}, [[A0]], [[A0, A1]]);
  }

  lemma FiveToThird(avoid: set<nat>)
    requires A0 !in avoid && A1 !in avoid && A2 !in avoid
    ensures Back(Five(), A2, avoid) == [[A0, A1, A2]]
  {
    var f := Five();
    FiveGraph();
    FiveToSecond(avoid + {A2});
    Each(f, [A1], avoid + {A2}, [[A0, A1]], []);
    Through(f, A2, avoid, avoid + {A2}, [[A0, A1]], [[A0, A1, A2]]);
  }

  lemma FiveToFourth(avoid: set<nat>)
    requires A0 !in avoid && A1 !in avoid && A2 !in avoid && A3 !in avoid
    ensures Back(Five(), A3, avoid) == [[A0, A1, A2, A3], [A0, A1, A3]]
  {
    var f := Five();
    var a := avoid + {A3};
    FiveGraph();
    FiveToThird(a);
    FiveToSecond(a);
    Each(f, [A1], a, [[A0, A1]], []);
    Each(f, [A2, A1], a, [[A0, A1, A2]], [[A0, A1]]);
    Through(f, A3, avoid, a, [[A0, A1, A2], [A0, A1]], [[A0, A1, A2, A3], [A0, A1, A3]]);
  }

  lemma FiveToLast()
    ensures Back(Five(), A4, {}) == [[A0, A1, A2, A3, A4], [A0, A1, A3, A4], [A0, A4]]
  {
    var f := Five();
    FiveGraph();
    FiveToFourth({A4});
    Each(f, [A0], {A4}, [[A0]], []);
    Each(f, [A3, A0], {A4}, [[A0, A1, A2, A3], [A0, A1, A3]], [[A0]]);
    Through(f, A4, {}, {A4}, [[A0, A1, A2, A3], [A0, A1, A3], [A0]],
            [[A0, A1, A2, A3, A4], [A0, A1, A3, A4], [A0, A4]]);
  }

  /** get_paths(0x4035B1): one node, whose path runs through the entry
      block and the second block. */
  lemma FiveGetPathsThird()
    ensures Valid(Five())
    ensures GetPaths(Five(), A2).Some?
    ensures |GetPaths(Five(), A2).value| == 1
    ensures StartsOf(Path(GetPaths(Five(), A2).value[0])) == [A0, A1, A2]
  {
    FiveValid();
    FindBlockUnique(Five(), A2, Block(A2, A3));
    GetPathsOf(Five(), A2, Block(A2, A3));
    FiveToThird({});
  }

  /** get_paths(0x4035BC): three nodes, one per simple path into the last
      block. */
  lemma FiveGetPathsLast()
    ensures Valid(Five())
    ensures GetPaths(Five(), 0x4035BC).Some?
    ensures var pbs := GetPaths(Five(), 0x4035BC).value;
            |pbs| == 3
            && StartsOf(Path(pbs[0])) == [A0, A1, A2, A3, A4]
            && StartsOf(Path(pbs[1])) == [A0, A1, A3, A4]
            && StartsOf(Path(pbs[2])) == [A0, A4]
  {
    FiveValid();
    FindBlockUnique(Five(), 0x4035BC, Block(A4, AEnd));
    GetPathsOf(Five(), 0x4035BC, Block(A4, AEnd));
    FiveToLast();
    Three(GetPaths(Five(), 0x4035BC).value, Back(Five(), A4, {}),
          [A0, A1, A2, A3, A4], [A0, A1, A3, A4], [A0, A4]);
  }

  /** Reads three path lists off the node list that produced them. */
  lemma Three(pbs: seq<PathBlock>, rs: seq<seq<nat>>, p0: seq<nat>, p1: seq<nat>, p2: seq<nat>)
    requires |pbs| == |rs|
    requires forall i :: 0 <= i < |rs| ==> StartsOf(Path(pbs[i])) == rs[i]
    requires rs == [p0, p1, p2]
    ensures |pbs| == 3
    ensures StartsOf(Path(pbs[0])) == p0 && StartsOf(Path(pbs[1])) == p1 && StartsOf(Path(pbs[2])) == p2
  {
    assert StartsOf(Path(pbs[0])) == rs[0];
    assert StartsOf(Path(pbs[1])) == rs[1];
    assert StartsOf(Path(pbs[2])) == rs[2];
  }

  /** get_paths(0x4011AA) in the single-block function: one node, whose
      path is the node alone. */
  lemma OneGetPaths()
    ensures Valid(One())
    ensures GetPaths(One(), 0x4011AA).Some?
    ensures var pbs := GetPaths(One(), 0x4011AA).value;
            |pbs| == 1 && Path(pbs[0]) == [pbs[0]]
  {
    OneValid();
    var g := One();
    FindBlockUnique(g, 0x4011AA, Block(0x401150, 0x4012A0));
    GetPathsOf(g, 0x4011AA, Block(0x401150, 0x4012A0));
    assert Back(g, 0x401150, {}) == [[0x401150]];
  }
}
