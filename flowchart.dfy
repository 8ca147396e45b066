/**
 * The control-flow graph of one function: its basic blocks, each an address
 * range [start, end), with successor and predecessor edges given by block
 * start address (as the disassembly host supplies them, in the host's
 * order). It offers block lookup by any contained address, traversal of the
 * blocks (breadth- or depth-first, along successor or predecessor edges)
 * and enumeration of the simple paths from the entry blocks to a block as
 * chains of parent-linked PathBlocks.
 */
module FlowChart {
  import opened Wrappers

  datatype Block = Block(start: nat, end: nat)

  datatype FlowChart = FlowChart(
    entry: nat,
    blocks: seq<Block>,
    succs: map<nat, seq<nat>>,
    preds: map<nat, seq<nat>>)

  /** A sequence without repeated elements. */
  predicate NoDup<T(==)>(s: seq<T>) {
    forall i, j :: 0 <= i < j < |s| ==> s[i] != s[j]
  }

  /** The start addresses of the blocks. */
  function Starts(fc: FlowChart): set<nat> {
    set b | b in fc.blocks :: b.start
  }

  /** The blocks as the edge lists know them: every block has a (possibly
      empty) successor list. */
  function Nodes(fc: FlowChart): set<nat> {
    fc.succs.Keys
  }

  predicate InNodes(fc: FlowChart, s: seq<nat>) {
    forall i :: 0 <= i < |s| ==> s[i] in fc.succs
  }

  /** The successors of block b; none when the host lists none. */
  function Succ(fc: FlowChart, b: nat): seq<nat> {
    if b in fc.succs then fc.succs[b] else []
  }

  /** The predecessors of block b; none when the host lists none. */
  function Pred(fc: FlowChart, b: nat): seq<nat> {
    if b in fc.preds then fc.preds[b] else []
  }

  /** The blocks one edge on in the direction of travel. */
  function Next(fc: FlowChart, reverse: bool, b: nat): seq<nat> {
    if reverse then Pred(fc, b) else Succ(fc, b)
  }

  /** Every edge, either way, joins two blocks. */
  ghost predicate Graph(fc: FlowChart) {
    && (forall b :: b in fc.succs ==> InNodes(fc, fc.succs[b]))
    && (forall b :: b in fc.preds ==> InNodes(fc, fc.preds[b]))
  }

  /** No predecessor is listed twice. */
  ghost predicate PredsDistinct(fc: FlowChart) {
    forall b :: b in fc.preds ==> NoDup(fc.preds[b])
  }

  /** Blocks are non-empty, ascending and disjoint. */
  ghost predicate Ordered(fc: FlowChart) {
    && (forall i :: 0 <= i < |fc.blocks| ==> fc.blocks[i].start < fc.blocks[i].end)
    && (forall i, j :: 0 <= i < j < |fc.blocks| ==> fc.blocks[i].end <= fc.blocks[j].start)
  }

  /** Successor lists and predecessor lists describe the same edges. */
  ghost predicate EdgesAgree(fc: FlowChart) {
    forall a, b :: b in Succ(fc, a) <==> a in Pred(fc, b)
  }

  /** What the model assumes of the host's graph: the blocks are ordered;
      every block, and no other address, has a successor list; the entry is
      a block; every edge joins two blocks; predecessor lists are the
      inverse of successor lists and repeat no block. */
  ghost predicate Valid(fc: FlowChart) {
    && Ordered(fc)
    && Starts(fc) == Nodes(fc)
    && fc.entry in Nodes(fc)
    && Graph(fc) && PredsDistinct(fc)
    && EdgesAgree(fc)
  }

  lemma NextInNodes(fc: FlowChart, reverse: bool, b: nat)
    requires Graph(fc)
    ensures InNodes(fc, Next(fc, reverse, b))
  {
  }

  /** Taking one more unvisited block out of the blocks left shrinks them. */
  lemma Shrinks(all: set<nat>, visited: set<nat>, h: nat)
    requires h in all && h !in visited
    ensures |all - (visited + {h})| < |all - visited|
  {
    assert all - visited == (all - (visited + {h})) + {h};
  }

  // ---- find_block ----

  /** find_block: the block containing address a, if any. */
  function FindBlock(fc: FlowChart, a: nat): (r: Option<Block>)
    ensures r.Some? ==> r.value in fc.blocks && r.value.start <= a < r.value.end
    ensures r.None? ==> forall b :: b in fc.blocks ==> !(b.start <= a < b.end)
    decreases |fc.blocks|
  {
    if fc.blocks == [] then None
    else if fc.blocks[0].start <= a < fc.blocks[0].end then Some(fc.blocks[0])
    else FindBlock(fc.(blocks := fc.blocks[1..]), a)
  }

  /** Two blocks containing the same address are the same block. */
  lemma Disjoint(fc: FlowChart, i: nat, j: nat, a: nat)
    requires Ordered(fc) && i < |fc.blocks| && j < |fc.blocks|
    ensures fc.blocks[i].start <= a < fc.blocks[i].end && fc.blocks[j].start <= a < fc.blocks[j].end ==> i == j
  {
    if i < j {
      assert fc.blocks[i].end <= fc.blocks[j].start;
    } else if j < i {
      assert fc.blocks[j].end <= fc.blocks[i].start;
    }
  }

  /** Blocks are disjoint, so the block found is the only one containing a. */
  lemma FindBlockUnique(fc: FlowChart, a: nat, b: Block)
    requires Ordered(fc) && b in fc.blocks && b.start <= a < b.end
    ensures FindBlock(fc, a) == Some(b)
  {
    var i :| 0 <= i < |fc.blocks| && fc.blocks[i] == b;
    var r := FindBlock(fc, a).value;
    var j :| 0 <= j < |fc.blocks| && fc.blocks[j] == r;
    Disjoint(fc, i, j, a);
  }

  /** The index of the first block from index k on that starts at s, or
      the number of blocks when there is none. */
  function IndexFrom(bs: seq<Block>, s: nat, k: nat): (r: nat)
    requires k <= |bs|
    ensures k <= r <= |bs| && (r < |bs| ==> bs[r].start == s)
    decreases |bs| - k
  {
    if k == |bs| then |bs| else if bs[k].start == s then k else IndexFrom(bs, s, k + 1)
  }

  /** A block starting at s at or after index k is found. */
  lemma {:induction false} IndexFound(bs: seq<Block>, s: nat, k: nat, j: nat)
    requires k <= j < |bs| && bs[j].start == s
    ensures IndexFrom(bs, s, k) <= j
    decreases j - k
  {
    if bs[k].start != s {
      IndexFound(bs, s, k + 1, j);
    }
  }

  /** The block that starts at s. */
  function BlockAt(fc: FlowChart, s: nat): (b: Block)
    requires s in Starts(fc)
    ensures b in fc.blocks && b.start == s
  {
    var j :| 0 <= j < |fc.blocks| && fc.blocks[j].start == s;
    IndexFound(fc.blocks, s, 0, j);
    fc.blocks[IndexFrom(fc.blocks, s, 0)]
  }

  /** Looking up a block by its start gives that block. */
  lemma BlockAtIndex(fc: FlowChart, i: nat)
    requires Ordered(fc) && i < |fc.blocks|
    ensures fc.blocks[i].start in Starts(fc)
    ensures BlockAt(fc, fc.blocks[i].start) == fc.blocks[i]
  {
    assert fc.blocks[i] in fc.blocks;
    IndexOrdered(fc, i, 0);
  }

  lemma {:induction false} IndexOrdered(fc: FlowChart, i: nat, k: nat)
    requires Ordered(fc) && k <= i < |fc.blocks|
    ensures IndexFrom(fc.blocks, fc.blocks[i].start, k) == i
    decreases i - k
  {
    if k < i {
      assert fc.blocks[k].start < fc.blocks[k].end <= fc.blocks[i].start;
      IndexOrdered(fc, i, k + 1);
    }
  }

  // ---- traversal ----

  /** The starts of the blocks bs that have no successors, in order. */
  function TerminalsIn(fc: FlowChart, bs: seq<Block>): seq<nat> {
    if bs == [] then []
    else if Succ(fc, bs[0].start) == [] then [bs[0].start] + TerminalsIn(fc, bs[1..])
    else TerminalsIn(fc, bs[1..])
  }

  /** The blocks with no successors, in block order: where a reverse
      traversal starts by default. */
  function Terminals(fc: FlowChart): seq<nat> {
    TerminalsIn(fc, fc.blocks)
  }

  lemma {:induction false} TerminalsInHolds(fc: FlowChart, bs: seq<Block>)
    ensures forall s :: s in TerminalsIn(fc, bs) <==> (exists b :: b in bs && b.start == s) && Succ(fc, s) == []
  {
    if bs != [] {
      TerminalsInHolds(fc, bs[1..]);
      assert forall b :: b in bs <==> b == bs[0] || b in bs[1..];
    }
  }

  /** The terminal blocks are exactly the blocks without successors. */
  lemma TerminalsHolds(fc: FlowChart)
    ensures forall s :: s in Terminals(fc) <==> s in Starts(fc) && Succ(fc, s) == []
  {
    TerminalsInHolds(fc, fc.blocks);
  }

  /** The work after yielding its first block: the blocks one edge on go to
      the back for breadth-first order and to the front for depth-first
      (pre-order) order. */
  function NextWork(fc: FlowChart, reverse: bool, dfs: bool, work: seq<nat>): (r: seq<nat>)
    requires work != []
    ensures |r| == |work| - 1 + |Next(fc, reverse, work[0])|
  {
    var next := Next(fc, reverse, work[0]);
    if dfs then next + work[1..] else work[1..] + next
  }

  /** The work after the step holds the rest of the work and the blocks one
      edge on, and nothing else. */
  lemma NextWorkHolds(fc: FlowChart, reverse: bool, dfs: bool, work: seq<nat>)
    requires work != []
    ensures forall s :: s in NextWork(fc, reverse, dfs, work) <==> s in work[1..] || s in Next(fc, reverse, work[0])
  {
  }

  /** The first block of the work is not yielded: it was visited already
      (or names no block, which no edge of a Graph chart does). */
  predicate Skipped(fc: FlowChart, visited: set<nat>, h: nat) {
    h in visited || h !in fc.succs
  }

  /** The traversal from a worklist: take the first block of the work; skip
      it when already visited, otherwise yield it, mark it visited and
      continue with NextWork. */
  function Walk(fc: FlowChart, reverse: bool, dfs: bool, work: seq<nat>, visited: set<nat>): (out: seq<nat>)
    decreases |Nodes(fc) - visited|, |work|
  {
    if work == [] then []
    else if Skipped(fc, visited, work[0]) then Walk(fc, reverse, dfs, work[1..], visited)
    else
      Shrinks(Nodes(fc), visited, work[0]);
      [work[0]] + Walk(fc, reverse, dfs, NextWork(fc, reverse, dfs, work), visited + {work[0]})
  }

  /** One step of the traversal that yields a block. */
  lemma WalkStep(fc: FlowChart, reverse: bool, dfs: bool, work: seq<nat>, visited: set<nat>)
    requires work != [] && !Skipped(fc, visited, work[0])
    ensures Walk(fc, reverse, dfs, work, visited)
         == [work[0]] + Walk(fc, reverse, dfs, NextWork(fc, reverse, dfs, work), visited + {work[0]})
  {
  }

  /** The work after a step names blocks only, when the work did. */
  lemma NextWorkInNodes(fc: FlowChart, reverse: bool, dfs: bool, work: seq<nat>)
    requires Graph(fc) && InNodes(fc, work) && work != []
    ensures InNodes(fc, NextWork(fc, reverse, dfs, work))
  {
    NextInNodes(fc, reverse, work[0]);
  }

  lemma ConsNoDup(h: nat, s: seq<nat>)
    requires NoDup(s) && h !in s
    ensures NoDup([h] + s)
  {
    var t := [h] + s;
    forall i, j | 0 <= i < j < |t| ensures t[i] != t[j] {
      assert t[j] == s[j - 1];
      if i > 0 { assert t[i] == s[i - 1]; }
    }
  }

  /** A traversal yields each block at most once, and only blocks not
      visited before. */
  lemma {:induction false} WalkFresh(fc: FlowChart, reverse: bool, dfs: bool, work: seq<nat>, visited: set<nat>)
    ensures NoDup(Walk(fc, reverse, dfs, work, visited))
    ensures forall b :: b in Walk(fc, reverse, dfs, work, visited) ==> b in Nodes(fc) && b !in visited
    decreases |Nodes(fc) - visited|, |work|
  {
    if work != [] {
      var h := work[0];
      if Skipped(fc, visited, h) {
        WalkFresh(fc, reverse, dfs, work[1..], visited);
      } else {
        WalkStep(fc, reverse, dfs, work, visited);
        Shrinks(Nodes(fc), visited, h);
        var work' := NextWork(fc, reverse, dfs, work);
        WalkFresh(fc, reverse, dfs, work', visited + {h});
        ConsNoDup(h, Walk(fc, reverse, dfs, work', visited + {h}));
      }
    }
  }

  /** The blocks a traversal starts from: the block containing start when
      one is given (None when no block contains it), else the entry block
      going forward and the terminal blocks going backward. */
  function Roots(fc: FlowChart, start: Option<nat>, reverse: bool): (r: Option<seq<nat>>)
    requires Valid(fc)
    ensures r.Some? ==> InNodes(fc, r.value)
    ensures start.Some? ==> (r.None? <==> FindBlock(fc, start.value).None?)
  {
    TerminalsHolds(fc);
    match start
    case None => Some(if reverse then Terminals(fc) else [fc.entry])
    case Some(a) =>
      match FindBlock(fc, a)
      case None => None
      case Some(b) => Some([b.start])
  }

  /** The blocks for a sequence of start addresses. */
  function BlocksOf(fc: FlowChart, s: seq<nat>): (r: seq<Block>)
    requires InStarts(fc, s)
    ensures |r| == |s| && forall i :: 0 <= i < |s| ==> r[i] in fc.blocks && r[i].start == s[i]
  {
    seq(|s|, i requires 0 <= i < |s| => BlockAt(fc, s[i]))
  }

  predicate InStarts(fc: FlowChart, s: seq<nat>) {
    forall i :: 0 <= i < |s| ==> s[i] in Starts(fc)
  }

  /** In a valid chart the blocks of the edge lists are the blocks. */
  lemma NodesAreStarts(fc: FlowChart, s: seq<nat>)
    requires Valid(fc) && InNodes(fc, s)
    ensures InStarts(fc, s)
  {
  }

  /** blocks(start, reverse, dfs): the blocks in traversal order. */
  function BlockOrder(fc: FlowChart, start: Option<nat>, reverse: bool, dfs: bool): (r: Option<seq<Block>>)
    requires Valid(fc)
    ensures r.None? <==> Roots(fc, start, reverse).None?
  {
    match Roots(fc, start, reverse)
    case None => None
    case Some(roots) =>
      var out := Walk(fc, reverse, dfs, roots, {});
      WalkFresh(fc, reverse, dfs, roots, {});
      NodesAreStarts(fc, out);
      Some(BlocksOf(fc, out))
  }

  /** One turn of the traversal loop keeps what has been yielded, followed
      by the traversal of the remaining work, equal to the whole traversal. */
  lemma TraverseStep(fc: FlowChart, reverse: bool, dfs: bool, work: seq<nat>, visited: set<nat>, out: seq<nat>, total: seq<nat>)
    requires work != [] && out + Walk(fc, reverse, dfs, work, visited) == total
    ensures Skipped(fc, visited, work[0]) ==> out + Walk(fc, reverse, dfs, work[1..], visited) == total
    ensures !Skipped(fc, visited, work[0]) ==>
              (out + [work[0]]) + Walk(fc, reverse, dfs, NextWork(fc, reverse, dfs, work), visited + {work[0]}) == total
  {
    if !Skipped(fc, visited, work[0]) {
      WalkStep(fc, reverse, dfs, work, visited);
      var rest := Walk(fc, reverse, dfs, NextWork(fc, reverse, dfs, work), visited + {work[0]});
      assert (out + [work[0]]) + rest == out + ([work[0]] + rest);
    }
  }

  /** The traversal as the source runs it: a loop over a worklist and a
      visited set. */
  method Traverse(fc: FlowChart, reverse: bool, dfs: bool, roots: seq<nat>) returns (out: seq<nat>)
    ensures out == Walk(fc, reverse, dfs, roots, {})
  {
    var work := roots;
    var visited: set<nat> := {};
    out := [];
    while work != []
      invariant out + Walk(fc, reverse, dfs, work, visited) == Walk(fc, reverse, dfs, roots, {})
      decreases |Nodes(fc) - visited|, |work|
    {
      var h := work[0];
      TraverseStep(fc, reverse, dfs, work, visited, out, Walk(fc, reverse, dfs, roots, {}));
      if h in visited || h !in fc.succs {
        work := work[1..];
      } else {
        Shrinks(Nodes(fc), visited, h);
        out := out + [h];
        visited := visited + {h};
        work := NextWork(fc, reverse, dfs, work);
      }
    }
  }

  /** blocks(start, reverse, dfs) as a method: the traversal loop, then the
      blocks for the starts it yields. */
  method Blocks(fc: FlowChart, start: Option<nat>, reverse: bool, dfs: bool) returns (r: Option<seq<Block>>)
    requires Valid(fc)
    ensures r == BlockOrder(fc, start, reverse, dfs)
  {
    var roots := Roots(fc, start, reverse);
    if roots.None? {
      return None;
    }
    var out := Traverse(fc, reverse, dfs, roots.value);
    WalkFresh(fc, reverse, dfs, roots.value, {});
    NodesAreStarts(fc, out);
    r := Some(BlocksOf(fc, out));
  }

  // ---- what a traversal visits ----

  /** p follows edges in the direction of travel. */
  ghost predicate IsRoute(fc: FlowChart, reverse: bool, p: seq<nat>) {
    |p| > 0 && forall i :: 0 <= i < |p| - 1 ==> p[i + 1] in Next(fc, reverse, p[i])
  }

  /** b can be reached from one of the roots. */
  ghost predicate Reaches(fc: FlowChart, reverse: bool, roots: seq<nat>, b: nat) {
    exists p :: IsRoute(fc, reverse, p) && p[0] in roots && p[|p| - 1] == b
  }

  lemma ReachStep(fc: FlowChart, reverse: bool, roots: seq<nat>, a: nat, b: nat)
    requires Reaches(fc, reverse, roots, a) && b in Next(fc, reverse, a)
    ensures Reaches(fc, reverse, roots, b)
  {
    var p :| IsRoute(fc, reverse, p) && p[0] in roots && p[|p| - 1] == a;
    var q := p + [b];
    assert forall i :: 0 <= i < |p| ==> q[i] == p[i];
    assert IsRoute(fc, reverse, q);
  }

  /** Every block a traversal yields is reachable from the roots, when all
      of its work is. */
  lemma {:induction false} WalkReachable(fc: FlowChart, reverse: bool, dfs: bool, roots: seq<nat>, work: seq<nat>, visited: set<nat>)
    requires forall w :: w in work ==> Reaches(fc, reverse, roots, w)
    ensures forall b :: b in Walk(fc, reverse, dfs, work, visited) ==> Reaches(fc, reverse, roots, b)
    decreases |Nodes(fc) - visited|, |work|
  {
    if work != [] {
      var h := work[0];
      if Skipped(fc, visited, h) {
        WalkReachable(fc, reverse, dfs, roots, work[1..], visited);
      } else {
        WalkStep(fc, reverse, dfs, work, visited);
        Shrinks(Nodes(fc), visited, h);
        var work' := NextWork(fc, reverse, dfs, work);
        NextWorkHolds(fc, reverse, dfs, work);
        forall w | w in work' ensures Reaches(fc, reverse, roots, w) {
          if w in Next(fc, reverse, h) {
            ReachStep(fc, reverse, roots, h, w);
          } else {
            assert w in work;
          }
        }
        WalkReachable(fc, reverse, dfs, roots, work', visited + {h});
      }
    }
  }

  /** x was visited before or has been yielded. */
  ghost predicate Seen(visited: set<nat>, out: seq<nat>, x: nat) {
    x in visited || x in out
  }

  /** Every edge out of a block seen ends at a block seen or in the work. */
  ghost predicate Closed(fc: FlowChart, reverse: bool, visited: set<nat>, out: seq<nat>, work: seq<nat>) {
    forall v :: Seen(visited, out, v) ==>
      forall s :: s in Next(fc, reverse, v) ==> Seen(visited, out, s) || s in work
  }

  /** Yielding the first block of the work keeps the seen blocks closed. */
  lemma CloseStep(fc: FlowChart, reverse: bool, dfs: bool, work: seq<nat>, visited: set<nat>)
    requires work != [] && Closed(fc, reverse, visited, [], work)
    ensures Closed(fc, reverse, visited + {work[0]}, [], NextWork(fc, reverse, dfs, work))
  {
    var h, work' := work[0], NextWork(fc, reverse, dfs, work);
    NextWorkHolds(fc, reverse, dfs, work);
    forall v, s | Seen(visited + {h}, [], v) && s in Next(fc, reverse, v) && !Seen(visited + {h}, [], s)
      ensures s in work'
    {
      if v != h {
        assert Seen(visited, [], v);
        assert s in work && s != h;
        assert s in work[1..];
      }
    }
  }

  /** Seen-before-the-step and seen-after agree. */
  lemma SeenShift(visited: set<nat>, h: nat, out': seq<nat>, x: nat)
    ensures Seen(visited + {h}, out', x) <==> Seen(visited, [h] + out', x)
  {
  }

  /** The blocks yielded, with those visited before, include all of the work
      and are closed under the edges. */
  lemma {:induction false} WalkCloses(fc: FlowChart, reverse: bool, dfs: bool, work: seq<nat>, visited: set<nat>)
    requires Graph(fc) && InNodes(fc, work) && Closed(fc, reverse, visited, [], work)
    ensures forall w :: w in work ==> Seen(visited, Walk(fc, reverse, dfs, work, visited), w)
    ensures Closed(fc, reverse, visited, Walk(fc, reverse, dfs, work, visited), [])
    decreases |Nodes(fc) - visited|, |work|
  {
    if work != [] {
      var h := work[0];
      if Skipped(fc, visited, h) {
        assert Closed(fc, reverse, visited, [], work[1..]);
        WalkCloses(fc, reverse, dfs, work[1..], visited);
      } else {
        WalkStep(fc, reverse, dfs, work, visited);
        Shrinks(Nodes(fc), visited, h);
        var work' := NextWork(fc, reverse, dfs, work);
        NextWorkInNodes(fc, reverse, dfs, work);
        CloseStep(fc, reverse, dfs, work, visited);
        WalkCloses(fc, reverse, dfs, work', visited + {h});
        var out' := Walk(fc, reverse, dfs, work', visited + {h});
        forall x ensures Seen(visited + {h}, out', x) <==> Seen(visited, [h] + out', x) {
          SeenShift(visited, h, out', x);
        }
        forall w | w in work ensures Seen(visited, [h] + out', w) {
          if w != h {
            assert w in work[1..];
          }
        }
      }
    }
  }

  /** Every block along a route from a seen block in a closed set is seen. */
  lemma {:induction false} RouteInClosed(fc: FlowChart, reverse: bool, out: seq<nat>, p: seq<nat>, k: nat)
    requires Closed(fc, reverse, {}, out, []) && IsRoute(fc, reverse, p) && Seen({}, out, p[0]) && k < |p|
    ensures Seen({}, out, p[k])
  {
    if k > 0 {
      RouteInClosed(fc, reverse, out, p, k - 1);
      assert p[k] in Next(fc, reverse, p[k - 1]);
    }
  }

  /** Every block reachable from the roots is yielded by the traversal. */
  lemma WalkReachesAll(fc: FlowChart, reverse: bool, dfs: bool, roots: seq<nat>, b: nat)
    requires Graph(fc) && InNodes(fc, roots) && Reaches(fc, reverse, roots, b)
    ensures b in Walk(fc, reverse, dfs, roots, {})
  {
    WalkCloses(fc, reverse, dfs, roots, {});
    var out := Walk(fc, reverse, dfs, roots, {});
    var p :| IsRoute(fc, reverse, p) && p[0] in roots && p[|p| - 1] == b;
    assert Seen({}, out, p[0]);
    RouteInClosed(fc, reverse, out, p, |p| - 1);
  }

  /** A traversal from the roots yields exactly the blocks reachable from
      them, each once. */
  lemma WalkVisitsReachable(fc: FlowChart, reverse: bool, dfs: bool, roots: seq<nat>)
    requires Graph(fc) && InNodes(fc, roots)
    ensures NoDup(Walk(fc, reverse, dfs, roots, {}))
    ensures forall b :: b in Walk(fc, reverse, dfs, roots, {}) <==> Reaches(fc, reverse, roots, b)
  {
    WalkFresh(fc, reverse, dfs, roots, {});
    forall w | w in roots ensures Reaches(fc, reverse, roots, w) {
      assert IsRoute(fc, reverse, [w]);
    }
    WalkReachable(fc, reverse, dfs, roots, roots, {});
    forall b | Reaches(fc, reverse, roots, b) ensures b in Walk(fc, reverse, dfs, roots, {}) {
      WalkReachesAll(fc, reverse, dfs, roots, b);
    }
  }

  /** Two blocks of an ordered chart with the same start are the same block. */
  lemma SameStart(fc: FlowChart, b: Block, c: Block)
    requires Ordered(fc) && b in fc.blocks && c in fc.blocks && b.start == c.start
    ensures b == c
  {
    var i :| 0 <= i < |fc.blocks| && fc.blocks[i] == b;
    var j :| 0 <= j < |fc.blocks| && fc.blocks[j] == c;
    Disjoint(fc, i, j, b.start);
  }

  /** blocks() yields every block whose start the traversal can reach from
      its roots, following successors (or predecessors in reverse), and
      each such block exactly once. */
  lemma BlockOrderReachable(fc: FlowChart, start: Option<nat>, reverse: bool, dfs: bool)
    requires Valid(fc) && Roots(fc, start, reverse).Some?
    ensures var r := BlockOrder(fc, start, reverse, dfs).value;
            var roots := Roots(fc, start, reverse).value;
            && NoDup(r)
            && forall b :: b in r <==> b in fc.blocks && Reaches(fc, reverse, roots, b.start)
  {
    var roots := Roots(fc, start, reverse).value;
    var out := Walk(fc, reverse, dfs, roots, {});
    WalkVisitsReachable(fc, reverse, dfs, roots);
    WalkFresh(fc, reverse, dfs, roots, {});
    NodesAreStarts(fc, out);
    var r := BlocksOf(fc, out);
    assert BlockOrder(fc, start, reverse, dfs).value == r;
    forall i, j | 0 <= i < j < |r| ensures r[i] != r[j] {
      assert out[i] != out[j];
    }
    forall b ensures b in r <==> b in fc.blocks && Reaches(fc, reverse, roots, b.start) {
      if b in r {
        var i :| 0 <= i < |r| && r[i] == b;
        assert out[i] in out;
      }
      if b in fc.blocks && Reaches(fc, reverse, roots, b.start) {
        assert b.start in out;
        var i :| 0 <= i < |out| && out[i] == b.start;
        SameStart(fc, r[i], b);
      }
    }
  }

  // ---- paths ----

  /** r is a simple path of blocks that starts at a block with no
      predecessors, follows predecessor edges backwards (so successor edges
      forwards), ends at b and avoids the blocks in avoid. */
  ghost predicate EntryPath(fc: FlowChart, r: seq<nat>, b: nat, avoid: set<nat>) {
    && |r| > 0 && r[|r| - 1] == b && Pred(fc, r[0]) == [] && NoDup(r)
    && InNodes(fc, r)
    && (forall i :: 0 <= i < |r| - 1 ==> r[i] in Pred(fc, r[i + 1]))
    && (forall i :: 0 <= i < |r| ==> r[i] !in avoid)
  }

  /** r is an entry path to one of the blocks ps. */
  ghost predicate EntryPathToOneOf(fc: FlowChart, r: seq<nat>, ps: seq<nat>, avoid: set<nat>) {
    |r| > 0 && r[|r| - 1] in ps && EntryPath(fc, r, r[|r| - 1], avoid)
  }

  /** An entry path to a predecessor p of b that avoids b extends to b. */
  lemma EntryPathExtend(fc: FlowChart, r: seq<nat>, p: nat, b: nat, avoid: set<nat>)
    requires EntryPath(fc, r, p, avoid + {b}) && p in Pred(fc, b) && b in fc.succs && b !in avoid
    ensures EntryPath(fc, r + [b], b, avoid)
  {
    var r' := r + [b];
    assert forall k :: 0 <= k < |r| ==> r'[k] == r[k];
    forall i, j | 0 <= i < j < |r'| ensures r'[i] != r'[j] {
      if j < |r| { assert r'[i] == r[i] && r'[j] == r[j]; }
    }
  }

  /** The last step of an entry path: either it is the block alone or its
      next-to-last block is a predecessor of its last. */
  lemma LastStep(fc: FlowChart, r: seq<nat>, b: nat, avoid: set<nat>)
    requires EntryPath(fc, r, b, avoid)
    ensures |r| == 1 || r[|r| - 2] in Pred(fc, b)
  {
    if |r| > 1 {
      assert r[|r| - 2] in Pred(fc, r[|r| - 1]);
    }
  }

  /** An entry path to b without its last block is an entry path to the
      block before, avoiding b as well. */
  lemma EntryPathTrim(fc: FlowChart, r: seq<nat>, b: nat, avoid: set<nat>)
    requires EntryPath(fc, r, b, avoid) && |r| > 1
    ensures EntryPath(fc, r[..|r| - 1], r[|r| - 2], avoid + {b})
  {
    var r0 := r[..|r| - 1];
    forall i | 0 <= i < |r0| ensures r0[i] !in avoid + {b} {
      assert r[i] != r[|r| - 1];
    }
    forall i | 0 <= i < |r0| - 1 ensures r0[i] in Pred(fc, r0[i + 1]) {
      assert r[i] in Pred(fc, r[i + 1]);
    }
  }

  /** Each path with b appended. */
  function Extend(rs: seq<seq<nat>>, b: nat): (r: seq<seq<nat>>)
    ensures |r| == |rs| && forall i :: 0 <= i < |rs| ==> r[i] == rs[i] + [b]
  {
    seq(|rs|, i requires 0 <= i < |rs| => rs[i] + [b])
  }

  /** The simple paths from the entry blocks to b that avoid the blocks in
      avoid, found depth-first back along predecessor edges: a block with no
      predecessors is an entry block and ends the search; a predecessor
      already on the path is not entered again. */
  function Back(fc: FlowChart, b: nat, avoid: set<nat>): seq<seq<nat>>
    requires Graph(fc) && b in fc.succs && b !in avoid
    decreases |Nodes(fc) - avoid|, 0, 0
  {
    var ps := Pred(fc, b);
    if ps == [] then [[b]]
    else
      Shrinks(Nodes(fc), avoid, b);
      Extend(BackAll(fc, ps, avoid + {b}), b)
  }

  /** The paths to the first of the blocks ps (none when it is avoided). */
  function BackFirst(fc: FlowChart, ps: seq<nat>, avoid: set<nat>): seq<seq<nat>>
    requires Graph(fc) && InNodes(fc, ps) && ps != []
    decreases |Nodes(fc) - avoid|, 1, |ps|, 0
  {
    if ps[0] in avoid then [] else Back(fc, ps[0], avoid)
  }

  /** The paths to each of the blocks ps in turn. */
  function BackAll(fc: FlowChart, ps: seq<nat>, avoid: set<nat>): seq<seq<nat>>
    requires Graph(fc) && InNodes(fc, ps)
    decreases |Nodes(fc) - avoid|, 1, |ps|, 1
  {
    if ps == [] then [] else BackFirst(fc, ps, avoid) + BackAll(fc, ps[1..], avoid)
  }

  /** Every path found is a simple entry path to b avoiding avoid. */
  lemma {:induction false} BackSound(fc: FlowChart, b: nat, avoid: set<nat>)
    requires Graph(fc) && b in fc.succs && b !in avoid
    ensures forall i :: 0 <= i < |Back(fc, b, avoid)| ==> EntryPath(fc, Back(fc, b, avoid)[i], b, avoid)
    decreases |Nodes(fc) - avoid|, 0, 0
  {
    var ps := Pred(fc, b);
    if ps != [] {
      Shrinks(Nodes(fc), avoid, b);
      var a := avoid + {b};
      BackAllSound(fc, ps, a);
      var rs := BackAll(fc, ps, a);
      assert Back(fc, b, avoid) == Extend(rs, b);
      forall i | 0 <= i < |rs| ensures EntryPath(fc, rs[i] + [b], b, avoid) {
        EntryPathExtend(fc, rs[i], rs[i][|rs[i]| - 1], b, avoid);
      }
    } else {
      assert EntryPath(fc, [b], b, avoid);
    }
  }

  lemma {:induction false} BackFirstSound(fc: FlowChart, ps: seq<nat>, avoid: set<nat>)
    requires Graph(fc) && InNodes(fc, ps) && ps != []
    ensures forall i :: 0 <= i < |BackFirst(fc, ps, avoid)| ==> EntryPathToOneOf(fc, BackFirst(fc, ps, avoid)[i], ps, avoid)
    decreases |Nodes(fc) - avoid|, 1, |ps|, 0
  {
    if ps[0] !in avoid {
      BackSound(fc, ps[0], avoid);
    }
  }

  lemma {:induction false} BackAllSound(fc: FlowChart, ps: seq<nat>, avoid: set<nat>)
    requires Graph(fc) && InNodes(fc, ps)
    ensures forall i :: 0 <= i < |BackAll(fc, ps, avoid)| ==> EntryPathToOneOf(fc, BackAll(fc, ps, avoid)[i], ps, avoid)
    decreases |Nodes(fc) - avoid|, 1, |ps|, 1
  {
    if ps != [] {
      BackFirstSound(fc, ps, avoid);
      BackAllSound(fc, ps[1..], avoid);
      var first, rest := BackFirst(fc, ps, avoid), BackAll(fc, ps[1..], avoid);
      forall i | 0 <= i < |first| + |rest| ensures EntryPathToOneOf(fc, (first + rest)[i], ps, avoid) {
        if i >= |first| {
          var r := rest[i - |first|];
          assert r[|r| - 1] in ps[1..];
        }
      }
    }
  }

  /** The paths to p are among the paths to any list of blocks holding p. */
  lemma {:induction false} BackAllHolds(fc: FlowChart, ps: seq<nat>, avoid: set<nat>, p: nat, r: seq<nat>)
    requires Graph(fc) && InNodes(fc, ps) && p in ps && p !in avoid
    requires r in Back(fc, p, avoid)
    ensures r in BackAll(fc, ps, avoid)
    decreases |ps|
  {
    if ps[0] != p {
      assert p in ps[1..];
      BackAllHolds(fc, ps[1..], avoid, p, r);
    }
  }

  /** Every simple entry path to b avoiding avoid is found. */
  lemma {:induction false} BackComplete(fc: FlowChart, b: nat, avoid: set<nat>, r: seq<nat>)
    requires Graph(fc) && b in fc.succs && b !in avoid
    requires EntryPath(fc, r, b, avoid)
    ensures r in Back(fc, b, avoid)
    decreases |r|
  {
    var ps := Pred(fc, b);
    LastStep(fc, r, b, avoid);
    if ps == [] {
      assert r == [b];
    } else {
      var r0, p := r[..|r| - 1], r[|r| - 2];
      var a := avoid + {b};
      EntryPathTrim(fc, r, b, avoid);
      BackComplete(fc, p, a, r0);
      BackAllHolds(fc, ps, a, p, r0);
      Shrinks(Nodes(fc), avoid, b);
      var rs := BackAll(fc, ps, a);
      var i :| 0 <= i < |rs| && rs[i] == r0;
      assert Back(fc, b, avoid)[i] == r0 + [b] == r;
    }
  }

  /** No path is found twice. */
  lemma {:induction false} BackDistinct(fc: FlowChart, b: nat, avoid: set<nat>)
    requires Graph(fc) && PredsDistinct(fc) && b in fc.succs && b !in avoid
    ensures NoDup(Back(fc, b, avoid))
    decreases |Nodes(fc) - avoid|, 0, 0
  {
    var ps := Pred(fc, b);
    if ps != [] {
      Shrinks(Nodes(fc), avoid, b);
      BackAllDistinct(fc, ps, avoid + {b});
      var rs := BackAll(fc, ps, avoid + {b});
      var out := Back(fc, b, avoid);
      forall i, j | 0 <= i < j < |out| ensures out[i] != out[j] {
        assert out[i][..|out[i]| - 1] == rs[i] && out[j][..|out[j]| - 1] == rs[j];
      }
    }
  }

  lemma {:induction false} BackAllDistinct(fc: FlowChart, ps: seq<nat>, avoid: set<nat>)
    requires Graph(fc) && PredsDistinct(fc) && InNodes(fc, ps) && NoDup(ps)
    ensures NoDup(BackAll(fc, ps, avoid))
    decreases |Nodes(fc) - avoid|, 1, |ps|, 1
  {
    if ps != [] {
      var first, rest := BackFirst(fc, ps, avoid), BackAll(fc, ps[1..], avoid);
      if ps[0] !in avoid {
        BackDistinct(fc, ps[0], avoid);
        BackSound(fc, ps[0], avoid);
      }
      assert NoDup(ps[1..]);
      BackAllDistinct(fc, ps[1..], avoid);
      BackAllSound(fc, ps[1..], avoid);
      var all := first + rest;
      forall i, j | 0 <= i < j < |all| ensures all[i] != all[j] {
        if i < |first| <= j {
          var r := rest[j - |first|];
          var k :| 0 <= k < |ps| - 1 && ps[1..][k] == r[|r| - 1];
          assert ps[k + 1] != ps[0];
          assert first[i][|first[i]| - 1] == ps[0];
        } else if j < |first| {
          assert all[i] == first[i] && all[j] == first[j];
        } else {
          assert all[i] == rest[i - |first|] && all[j] == rest[j - |first|];
        }
      }
    }
  }

  // ---- path blocks ----

  /** A node of a path: its block and the node of the block before it (None
      for the entry block). */
  datatype PathBlock = PathBlock(bb: Block, parent: Option<PathBlock>)

  /** path(): the nodes from the entry block to this one, rebuilt through
      the parent links. */
  function Path(pb: PathBlock): (r: seq<PathBlock>)
    ensures |r| > 0 && r[|r| - 1] == pb
    decreases pb
  {
    match pb.parent
    case None => [pb]
    case Some(q) => Path(q) + [pb]
  }

  /** The block starts along a list of nodes. */
  function StartsOf(ps: seq<PathBlock>): (r: seq<nat>)
    ensures |r| == |ps| && forall i :: 0 <= i < |ps| ==> r[i] == ps[i].bb.start
  {
    seq(|ps|, i requires 0 <= i < |ps| => ps[i].bb.start)
  }

  /** The chain of nodes for a path of block starts; its last node is
      returned. */
  function Chain(fc: FlowChart, r: seq<nat>): PathBlock
    requires |r| > 0 && InStarts(fc, r)
    decreases |r|
  {
    PathBlock(BlockAt(fc, r[|r| - 1]), if |r| == 1 then None else Some(Chain(fc, r[..|r| - 1])))
  }

  /** Rebuilding the path of a chain gives back the block starts it was
      built from, and its first node has no parent. */
  lemma {:induction false} ChainPath(fc: FlowChart, r: seq<nat>)
    requires |r| > 0 && InStarts(fc, r)
    ensures StartsOf(Path(Chain(fc, r))) == r
    ensures Path(Chain(fc, r))[0].parent == None
    decreases |r|
  {
    if |r| > 1 {
      var r0 := r[..|r| - 1];
      ChainPath(fc, r0);
      assert r == r0 + [r[|r| - 1]];
    }
  }

  /** Every path found to a block of a valid chart names blocks. */
  lemma BackInStarts(fc: FlowChart, b: nat)
    requires Valid(fc) && b in fc.succs
    ensures forall i :: 0 <= i < |Back(fc, b, {})| ==> |Back(fc, b, {})[i]| > 0 && InStarts(fc, Back(fc, b, {})[i])
  {
    BackSound(fc, b, {});
    forall i | 0 <= i < |Back(fc, b, {})| ensures InStarts(fc, Back(fc, b, {})[i]) {
      NodesAreStarts(fc, Back(fc, b, {})[i]);
    }
  }

  /** The nodes for a list of paths. */
  function Chains(fc: FlowChart, rs: seq<seq<nat>>): (r: seq<PathBlock>)
    requires forall i :: 0 <= i < |rs| ==> |rs[i]| > 0 && InStarts(fc, rs[i])
    ensures |r| == |rs| && forall i :: 0 <= i < |rs| ==> r[i] == Chain(fc, rs[i])
  {
    seq(|rs|, i requires 0 <= i < |rs| => Chain(fc, rs[i]))
  }

  /** get_paths(a): one node per simple path from an entry block to the
      block containing a. The path-not-found error (None) is reported when
      no block contains a or no entry path reaches its block; a result is
      never empty. */
  function GetPaths(fc: FlowChart, a: nat): (r: Option<seq<PathBlock>>)
    requires Valid(fc)
    ensures FindBlock(fc, a).None? ==> r.None?
    ensures r.Some? ==> |r.value| > 0
  {
    match FindBlock(fc, a)
    case None => None
    case Some(t) =>
      assert t.start in Starts(fc);
      BackInStarts(fc, t.start);
      var rs := Back(fc, t.start, {});
      if rs == [] then None else Some(Chains(fc, rs))
  }

  /** get_paths unfolded for an address inside block t. */
  lemma GetPathsOf(fc: FlowChart, a: nat, t: Block)
    requires Valid(fc) && FindBlock(fc, a) == Some(t)
    ensures t.start in fc.succs
    ensures var rs := Back(fc, t.start, {});
            (GetPaths(fc, a).None? <==> rs == []) &&
            (GetPaths(fc, a).Some? ==>
               |GetPaths(fc, a).value| == |rs| &&
               forall i :: 0 <= i < |rs| ==>
                 StartsOf(Path(GetPaths(fc, a).value[i])) == rs[i] && Path(GetPaths(fc, a).value[i])[0].parent == None)
  {
    assert t.start in Starts(fc);
    BackInStarts(fc, t.start);
    var rs := Back(fc, t.start, {});
    if rs != [] {
      var ps := GetPaths(fc, a).value;
      forall i | 0 <= i < |rs| ensures StartsOf(Path(ps[i])) == rs[i] && Path(ps[i])[0].parent == None {
        ChainPath(fc, rs[i]);
      }
    }
  }

  /** get_paths fails with path-not-found, for an address inside block t,
      exactly when no simple entry path reaches t. */
  lemma GetPathsNotFound(fc: FlowChart, a: nat, t: Block)
    requires Valid(fc) && FindBlock(fc, a) == Some(t)
    ensures GetPaths(fc, a).None? <==> forall r :: !EntryPath(fc, r, t.start, {})
  {
    GetPathsOf(fc, a, t);
    if GetPaths(fc, a).None? {
      forall r | EntryPath(fc, r, t.start, {}) ensures false {
        BackComplete(fc, t.start, {}, r);
      }
    } else {
      BackSound(fc, t.start, {});
      assert EntryPath(fc, Back(fc, t.start, {})[0], t.start, {});
    }
  }

  /** Every node get_paths yields has as its path a simple entry path to
      the block containing a, beginning at a node with no parent. */
  lemma GetPathsSound(fc: FlowChart, a: nat, t: Block)
    requires Valid(fc) && FindBlock(fc, a) == Some(t)
    ensures GetPaths(fc, a).Some? ==>
              forall i :: 0 <= i < |GetPaths(fc, a).value| ==>
                EntryPath(fc, StartsOf(Path(GetPaths(fc, a).value[i])), t.start, {}) && Path(GetPaths(fc, a).value[i])[0].parent == None
  {
    GetPathsOf(fc, a, t);
    BackSound(fc, t.start, {});
  }

  /** Every simple entry path to the block containing a is the path of a
      node get_paths yields. */
  lemma GetPathsComplete(fc: FlowChart, a: nat, t: Block, r: seq<nat>)
    requires Valid(fc) && FindBlock(fc, a) == Some(t) && EntryPath(fc, r, t.start, {})
    ensures GetPaths(fc, a).Some?
    ensures exists i :: 0 <= i < |GetPaths(fc, a).value| && StartsOf(Path(GetPaths(fc, a).value[i])) == r
  {
    GetPathsOf(fc, a, t);
    BackComplete(fc, t.start, {}, r);
    var rs := Back(fc, t.start, {});
    var i :| 0 <= i < |rs| && rs[i] == r;
    assert StartsOf(Path(GetPaths(fc, a).value[i])) == r;
  }

  /** No two nodes get_paths yields have the same path. */
  lemma GetPathsDistinct(fc: FlowChart, a: nat, t: Block)
    requires Valid(fc) && FindBlock(fc, a) == Some(t)
    ensures GetPaths(fc, a).Some? ==>
              forall i, j :: 0 <= i < j < |GetPaths(fc, a).value| ==>
                StartsOf(Path(GetPaths(fc, a).value[i])) != StartsOf(Path(GetPaths(fc, a).value[j]))
  {
    GetPathsOf(fc, a, t);
    BackDistinct(fc, t.start, {});
  }
}
