/**
 * The cycle detector: a traversal from the entry block over every edge
 * that is not an unhandled-exception edge, which reports a cycle as soon as
 * it takes from its work set a block it has already visited.
 */
module CycleDetection {
  import opened Wrappers
  import opened ControlFlow
  import RandSin

  /** The blocks the traversal queues after visiting `b`: targets of its edges that are not unhandled-exception edges. */
  function FollowedSuccessors(g: Cfg, b: Block): set<Block>
  {
    Successors(WithoutUnhandled(g), b)
  }

  /**
   * One run of the traversal, given the order `trace` in which blocks are
   * taken from the work set (a hash set, whose order is unspecified). The
   * result is None when `trace` is not a run that stops where it ends: it
   * takes a block that is not in the work set, goes on after a repeat, or
   * stops while work remains. A run answers true exactly when the block it
   * takes is already visited, and false when the work set runs empty.
   */
  function Execute(g: Cfg, work: set<Block>, visited: set<Block>, trace: seq<Block>): (r: Option<bool>)
    ensures r == Some(true) ==>
              |trace| > 0 && (trace[|trace| - 1] in visited || trace[|trace| - 1] in trace[..|trace| - 1])
    ensures r == Some(false) ==>
              (forall i :: 0 <= i < |trace| ==> trace[i] !in visited)
              && (forall i, j :: 0 <= i < j < |trace| ==> trace[i] != trace[j])
    decreases |trace|
  {
    if trace == [] then
      if work == {} then Some(false) else None
    else
      var b := trace[0];
      if b !in work then None
      else if b in visited then
        if |trace| == 1 then Some(true) else None
      else
        Execute(g, (work - {b}) + FollowedSuccessors(g, b), visited + {b}, trace[1..])
  }

  /**
   * The followed edges reachable from the entry form a tree: no edge leads
   * back into the entry, and each reachable block has a single predecessor.
   */
  ghost predicate FollowedTree(g: Cfg)
  {
    var fg := WithoutUnhandled(g);
    && (forall e :: e in fg.edges ==> e.target != g.entry)
    && (forall e1, e2 ::
          e1 in fg.edges && e2 in fg.edges && e1.target == e2.target && ReachedFrom(fg, {g.entry}, e1.target)
          ==> e1.source == e2.source)
  }

  /**
   * Unhandled-exception edges play no part in a run: adding any number of
   * them to the graph changes the outcome of no removal order.
   */
  lemma {:induction false} UnhandledEdgesIgnored(g: Cfg, extra: set<Edge>, work: set<Block>,
                                                 visited: set<Block>, trace: seq<Block>)
    requires forall e :: e in extra ==> e.kind == UnhandledException
    ensures Execute(g.(edges := g.edges + extra), work, visited, trace) == Execute(g, work, visited, trace)
    decreases |trace|
  {
    var g' := g.(edges := g.edges + extra);
    if trace != [] {
      var b := trace[0];
      assert FollowedSuccessors(g', b) == FollowedSuccessors(g, b) by {
        assert WithoutUnhandled(g').edges == WithoutUnhandled(g).edges;
      }
      UnhandledEdgesIgnored(g, extra, (work - {b}) + FollowedSuccessors(g, b), visited + {b}, trace[1..]);
    }
  }

  /** The inner loop of the traversal: queue the target of every outgoing edge of `b` that is not an unhandled-exception edge. */
  method QueueFollowedSuccessors(g: Cfg, b: Block, work: set<Block>) returns (work': set<Block>)
    ensures work' == work + FollowedSuccessors(g, b)
  {
    work' := work;
    var children := Outgoing(g, b);
    while children != {}
      invariant children <= Outgoing(g, b)
      invariant work' == work + TargetsOf(HandledEdges(Outgoing(g, b) - children))
      decreases children
    {
      var edge :| edge in children;
      children := children - {edge};
      if edge.kind != UnhandledException {
        work' := work' + {edge.target};
      }
      assert Outgoing(g, b) - children == (Outgoing(g, b) - (children + {edge})) + {edge};
    }
    assert Outgoing(g, b) - children == Outgoing(g, b);
    assert TargetsOf(HandledEdges(Outgoing(g, b))) == FollowedSuccessors(g, b);
  }

  /**
   * What holds of the traversal at the head of each iteration. Every
   * visited block carries a rank, the order in which it was visited; a
   * followed successor of a visited block is either still in the work set
   * or was visited later. Every block seen so far is reachable from the
   * entry.
   */
  ghost predicate TraversalInvariant(g: Cfg, work: set<Block>, visited: set<Block>,
                                     rank: map<Block, nat>, bound: nat)
  {
    var fg := WithoutUnhandled(g);
    && work <= {g.entry} + Targets(fg)
    && visited <= {g.entry} + Targets(fg)
    && g.entry in work + visited
    && rank.Keys == visited
    && (forall a :: a in visited ==> rank[a] < bound)
    && (forall a, b :: a in visited && b in FollowedSuccessors(g, a) ==>
          b in work || (b in visited && rank[a] < rank[b]))
    && (forall b :: b in work + visited ==> ReachedFrom(fg, {g.entry}, b))
  }

  /** On a tree, nothing queued has been visited, and a block is seen only after its predecessor was visited. */
  ghost predicate TreeInvariant(g: Cfg, work: set<Block>, visited: set<Block>)
  {
    FollowedTree(g) ==>
      && work * visited == {}
      && forall e :: e in WithoutUnhandled(g).edges && e.target in work + visited ==> e.source in visited
  }

  /** When the entry has no followed edge, the entry is the only block ever seen, and it is seen once. */
  ghost predicate LoneEntryInvariant(g: Cfg, work: set<Block>, visited: set<Block>)
  {
    FollowedSuccessors(g, g.entry) == {} ==>
      work <= {g.entry} && visited <= {g.entry} && work * visited == {}
  }

  lemma TraversalStep(g: Cfg, work: set<Block>, visited: set<Block>, rank: map<Block, nat>,
                      bound: nat, b: Block)
    requires TraversalInvariant(g, work, visited, rank, bound)
    requires b in work && b !in visited
    ensures b in {g.entry} + Targets(WithoutUnhandled(g))
    ensures TraversalInvariant(g, (work - {b}) + FollowedSuccessors(g, b), visited + {b},
                               rank[b := bound], bound + 1)
  {
    var fg := WithoutUnhandled(g);
    var work', visited', rank' := (work - {b}) + FollowedSuccessors(g, b), visited + {b}, rank[b := bound];
    assert FollowedSuccessors(g, b) <= Targets(fg);
    assert work' <= {g.entry} + Targets(fg);
    assert visited' <= {g.entry} + Targets(fg);
    assert g.entry in work' + visited';
    assert rank'.Keys == visited';
    assert forall a :: a in visited' ==> rank'[a] < bound + 1;
    forall a, y | a in visited' && y in FollowedSuccessors(g, a)
      ensures y in work' || (y in visited' && rank'[a] < rank'[y])
    {
      if a != b && y != b {
        assert y in work || (y in visited && rank[a] < rank[y]);
      }
    }
    forall y | y in work' + visited'
      ensures ReachedFrom(fg, {g.entry}, y)
    {
      if y !in work + visited {
        ReachedStep(fg, {g.entry}, b, y);
      }
    }
  }

  lemma TreeStep(g: Cfg, work: set<Block>, visited: set<Block>, rank: map<Block, nat>,
                 bound: nat, b: Block)
    requires TraversalInvariant(g, work, visited, rank, bound)
    requires TreeInvariant(g, work, visited)
    requires b in work && b !in visited
    ensures TreeInvariant(g, (work - {b}) + FollowedSuccessors(g, b), visited + {b})
  {
    var fg := WithoutUnhandled(g);
    var work', visited' := (work - {b}) + FollowedSuccessors(g, b), visited + {b};
    if FollowedTree(g) {
      forall y | y in FollowedSuccessors(g, b)
        ensures y !in visited'
      {
        var e0 := SuccessorEdge(fg, b, y);
        assert e0.target in work + visited ==> e0.source in visited;
      }
      forall e | e in fg.edges && e.target in work' + visited'
        ensures e.source in visited'
      {
        if e.target !in work + visited {
          var e0 := SuccessorEdge(fg, b, e.target);
          ReachedStep(fg, {g.entry}, b, e.target);
        }
      }
    }
  }

  lemma LoneEntryStep(g: Cfg, work: set<Block>, visited: set<Block>, b: Block)
    requires LoneEntryInvariant(g, work, visited)
    requires b in work && b !in visited
    ensures LoneEntryInvariant(g, (work - {b}) + FollowedSuccessors(g, b), visited + {b})
  {
  }

  /** Ranks grow strictly along a path through a set closed under followed successors. */
  lemma {:induction false} RankGrowsAlongPath(g: Cfg, p: seq<Block>, c: set<Block>, rank: map<Block, nat>)
    requires IsPath(WithoutUnhandled(g), p) && |p| >= 2 && p[0] in c
    requires c <= rank.Keys
    requires forall a, y :: a in c && y in FollowedSuccessors(g, a) ==> y in c && rank[a] < rank[y]
    ensures p[|p| - 1] in c && rank[p[0]] < rank[p[|p| - 1]]
    decreases |p|
  {
    var fg := WithoutUnhandled(g);
    var k := |p| - 2;
    assert p[k + 1] in Successors(fg, p[k]);
    if |p| == 2 {
      assert p[1] in FollowedSuccessors(g, p[0]);
    } else {
      var q := p[..|p| - 1];
      assert IsPath(fg, q) by {
        forall i | 0 <= i < |q| - 1 ensures q[i + 1] in Successors(fg, q[i]) {
          assert q[i] == p[i] && q[i + 1] == p[i + 1];
        }
      }
      RankGrowsAlongPath(g, q, c, rank);
      assert p[k + 1] in FollowedSuccessors(g, p[k]);
    }
  }

  /** When the work set runs empty, no cycle is reachable from the entry. */
  lemma ExhaustedMeansAcyclic(g: Cfg, visited: set<Block>, rank: map<Block, nat>, bound: nat)
    requires TraversalInvariant(g, {}, visited, rank, bound)
    ensures !HasReachableCycle(WithoutUnhandled(g))
  {
    var fg := WithoutUnhandled(g);
    if HasReachableCycle(fg) {
      var b :| ReachedFrom(fg, {g.entry}, b) && OnCycle(fg, b);
      assert forall a, y :: a in visited && y in FollowedSuccessors(g, a) ==> y in visited && rank[a] < rank[y];
      ClosedContainsReached(fg, {g.entry}, visited, b);
      var p :| IsPath(fg, p) && |p| >= 2 && p[0] == b && p[|p| - 1] == b;
      RankGrowsAlongPath(g, p, visited, rank);
    }
  }

  lemma SubsetSize(a: set<Block>, b: set<Block>)
    requires a <= b
    ensures |a| <= |b|
  {
    assert b == a + (b - a);
  }

  /** `trace` is a run prefix that leads from the initial state to the state (`work`, `visited`). */
  ghost predicate Replays(g: Cfg, trace: seq<Block>, work: set<Block>, visited: set<Block>)
  {
    forall rest :: Execute(g, {g.entry}, {}, trace + rest) == Execute(g, work, visited, rest)
  }

  lemma ReplayStep(g: Cfg, trace: seq<Block>, work: set<Block>, visited: set<Block>, b: Block)
    requires Replays(g, trace, work, visited)
    requires b in work
    ensures b in visited ==> Execute(g, {g.entry}, {}, trace + [b]) == Some(true)
    ensures b !in visited ==> Replays(g, trace + [b], (work - {b}) + FollowedSuccessors(g, b), visited + {b})
  {
    assert Execute(g, {g.entry}, {}, trace + [b]) == Execute(g, work, visited, [b]);
    if b !in visited {
      forall rest
        ensures Execute(g, {g.entry}, {}, trace + [b] + rest)
             == Execute(g, (work - {b}) + FollowedSuccessors(g, b), visited + {b}, rest)
      {
        assert trace + [b] + rest == trace + ([b] + rest);
        assert ([b] + rest)[1..] == rest;
      }
    }
  }

  /** Everything the traversal keeps true from one iteration to the next. */
  ghost predicate LoopInvariant(g: Cfg, trace: seq<Block>, work: set<Block>, visited: set<Block>,
                                rank: map<Block, nat>)
  {
    && TraversalInvariant(g, work, visited, rank, |trace|)
    && |visited| == |trace|
    && TreeInvariant(g, work, visited)
    && LoneEntryInvariant(g, work, visited)
    && Replays(g, trace, work, visited)
  }

  lemma LoopInit(g: Cfg)
    ensures LoopInvariant(g, [], {g.entry}, {}, map[])
  {
    StartIsReached(WithoutUnhandled(g), {g.entry}, g.entry);
    forall rest
      ensures Execute(g, {g.entry}, {}, [] + rest) == Execute(g, {g.entry}, {}, rest)
    {
      assert [] + rest == rest;
    }
  }

  /** Taking a block that was not visited keeps the invariant, and brings the measure down. */
  lemma LoopStep(g: Cfg, trace: seq<Block>, work: set<Block>, visited: set<Block>,
                 rank: map<Block, nat>, b: Block)
    requires LoopInvariant(g, trace, work, visited, rank)
    requires b in work && b !in visited
    ensures b in {g.entry} + Targets(WithoutUnhandled(g))
    ensures LoopInvariant(g, trace + [b], (work - {b}) + FollowedSuccessors(g, b), visited + {b},
                          rank[b := |trace|])
  {
    TraversalStep(g, work, visited, rank, |trace|, b);
    TreeStep(g, work, visited, rank, |trace|, b);
    LoneEntryStep(g, work, visited, b);
    ReplayStep(g, trace, work, visited, b);
    assert |visited + {b}| == |visited| + 1;
    assert |trace + [b]| == |trace| + 1;
  }

  /** Taking a block that was visited ends the run with true, which never happens on a tree or on a lone entry. */
  lemma LoopRepeat(g: Cfg, trace: seq<Block>, work: set<Block>, visited: set<Block>,
                   rank: map<Block, nat>, b: Block)
    requires LoopInvariant(g, trace, work, visited, rank)
    requires b in work && b in visited
    ensures Execute(g, {g.entry}, {}, trace + [b]) == Some(true)
    ensures !FollowedTree(g)
    ensures FollowedSuccessors(g, g.entry) != {}
    ensures |trace| <= |{g.entry} + Targets(WithoutUnhandled(g))|
  {
    ReplayStep(g, trace, work, visited, b);
    SubsetSize(visited, {g.entry} + Targets(WithoutUnhandled(g)));
  }

  /** An empty work set ends the run with false, and no cycle is reachable. */
  lemma LoopExhausted(g: Cfg, trace: seq<Block>, visited: set<Block>, rank: map<Block, nat>)
    requires LoopInvariant(g, trace, {}, visited, rank)
    ensures Execute(g, {g.entry}, {}, trace) == Some(false)
    ensures !HasReachableCycle(WithoutUnhandled(g))
    ensures |trace| <= |{g.entry} + Targets(WithoutUnhandled(g))|
  {
    SubsetSize(visited, {g.entry} + Targets(WithoutUnhandled(g)));
    assert trace + [] == trace;
    ExhaustedMeansAcyclic(g, visited, rank, |trace|);
  }

  /**
   * The traversal as written: take any block from the work set; if it was
   * visited already, report a cycle; otherwise mark it visited and queue
   * the targets of its edges that are not unhandled-exception edges. The
   * ghost `trace` is the removal order this run happened to use.
   */
  method HasCycle(g: Cfg) returns (found: bool, ghost trace: seq<Block>)
    ensures Execute(g, {g.entry}, {}, trace) == Some(found)
    ensures HasReachableCycle(WithoutUnhandled(g)) ==> found
    ensures FollowedTree(g) ==> !found
    ensures FollowedSuccessors(g, g.entry) == {} ==> !found
    ensures |trace| <= |{g.entry} + Targets(WithoutUnhandled(g))| + 1
  {
    var blocks := {g.entry};
    var visited: set<Block> := {};
    ghost var rank: map<Block, nat> := map[];
    trace := [];
    LoopInit(g);
    while blocks != {}
      invariant LoopInvariant(g, trace, blocks, visited, rank)
      decreases ({g.entry} + Targets(WithoutUnhandled(g))) - visited
    {
      var block :| block in blocks;
      if block in visited {
        LoopRepeat(g, trace, blocks, visited, rank, block);
        trace := trace + [block];
        found := true;
        return;
      }
      LoopStep(g, trace, blocks, visited, rank, block);
      blocks := blocks - {block};
      rank := rank[block := |trace|];
      trace := trace + [block];
      visited := visited + {block};
      blocks := QueueFollowedSuccessors(g, block, blocks);
    }
    LoopExhausted(g, trace, visited, rank);
    found := false;
  }

  /** The diamond 0 -> 1, 0 -> 2, 1 -> 3, 2 -> 3: two paths join at block 3, and there is no cycle. */
  function Diamond(): Cfg
  {
    Cfg(map[0 := [], 1 := [], 2 := [], 3 := []],
        {Edge(0, 1, IfCmp), Edge(0, 2, FallThrough), Edge(1, 3, Goto), Edge(2, 3, FallThrough)},
        0)
  }

  /**
   * The traversal as written reports a cycle on the diamond when the hash
   * set hands out its blocks in the order 0, 1, 3, 2, 3: block 3 is queued
   * again by block 2 after it was visited from block 1.
   */
  lemma DiamondReportsCycle()
    ensures !HasReachableCycle(WithoutUnhandled(Diamond()))
    ensures Execute(Diamond(), {0}, {}, [0, 1, 3, 2, 3]) == Some(true)
  {
    var g := Diamond();
    IncreasingIsAcyclic(WithoutUnhandled(g));
    assert FollowedSuccessors(g, 0) == {1, 2} by {
      assert Edge(0, 1, IfCmp) in WithoutUnhandled(g).edges;
      assert Edge(0, 2, FallThrough) in WithoutUnhandled(g).edges;
    }
    assert FollowedSuccessors(g, 1) == {3} by {
      assert Edge(1, 3, Goto) in WithoutUnhandled(g).edges;
    }
    assert FollowedSuccessors(g, 2) == {3} by {
      assert Edge(2, 3, FallThrough) in WithoutUnhandled(g).edges;
    }
    assert FollowedSuccessors(g, 3) == {};
    calc {
      Execute(g, {0}, {}, [0, 1, 3, 2, 3]);
      Execute(g, {1, 2}, {0}, [1, 3, 2, 3]);
      Execute(g, {2, 3}, {0, 1}, [3, 2, 3]);
      Execute(g, {2}, {0, 1, 3}, [2, 3]);
      Execute(g, {3}, {0, 1, 3, 2}, [3]);
      Some(true);
    }
  }

  /**
   * The evidently intended check: true exactly when some block reachable
   * from the entry lies on a cycle of followed edges. For every candidate
   * block it asks the source-to-sink search twice: is the block reachable
   * from the entry, and is it reachable from its own successors.
   */
  method HasCycleCorrected(g: Cfg) returns (found: bool)
    ensures found <==> HasReachableCycle(WithoutUnhandled(g))
  {
    var fg := WithoutUnhandled(g);
    var candidates := {g.entry} + Targets(fg);
    while candidates != {}
      invariant candidates <= {g.entry} + Targets(fg)
      invariant forall b :: b in ({g.entry} + Targets(fg)) - candidates ==>
                  !(ReachedFrom(fg, {g.entry}, b) && OnCycle(fg, b))
      decreases candidates
    {
      var b :| b in candidates;
      candidates := candidates - {b};
      var fromEntry := RandSin.HasPath(fg, {g.entry}, {b});
      var backToItself := RandSin.HasPath(fg, Successors(fg, b), {b});
      OnCycleIffReturns(fg, b);
      if fromEntry && backToItself {
        return true;
      }
    }
    forall b | ReachedFrom(fg, {g.entry}, b)
      ensures !OnCycle(fg, b)
    {
      ReachedWithin(fg, {g.entry}, b);
    }
    return false;
  }

  /** A followed self-loop on a block reachable from the entry is a cycle, so the traversal reports it on every order. */
  lemma SelfLoopIsCycle(g: Cfg, b: Block)
    requires ReachedFrom(WithoutUnhandled(g), {g.entry}, b)
    requires b in FollowedSuccessors(g, b)
    ensures HasReachableCycle(WithoutUnhandled(g))
  {
    assert IsPath(WithoutUnhandled(g), [b, b]);
  }

  /** Three blocks 0 -> 1 -> 2 -> 0: a cycle through the entry. */
  lemma TriangleHasCycle()
    ensures HasReachableCycle(WithoutUnhandled(Cfg(map[0 := [], 1 := [], 2 := []],
                                                   {Edge(0, 1, FallThrough), Edge(1, 2, Goto), Edge(2, 0, Goto)}, 0)))
  {
    var fg := WithoutUnhandled(Cfg(map[0 := [], 1 := [], 2 := []],
                                   {Edge(0, 1, FallThrough), Edge(1, 2, Goto), Edge(2, 0, Goto)}, 0));
    assert Edge(0, 1, FallThrough) in fg.edges && Edge(1, 2, Goto) in fg.edges && Edge(2, 0, Goto) in fg.edges;
    assert IsPath(fg, [0, 1, 2, 0]);
    StartIsReached(fg, {0}, 0);
  }

  /** Two blocks, entry -> exit: a tree, so the traversal answers false on every order. */
  lemma EntryExitIsTree()
    ensures FollowedTree(Cfg(map[0 := [], 1 := []], {Edge(0, 1, FallThrough)}, 0))
  {
  }

  /** An entry whose only loop goes through an unhandled-exception edge still forms a tree. */
  lemma UnhandledLoopIsTree()
    ensures FollowedTree(Cfg(map[0 := [], 1 := []], {Edge(0, 1, FallThrough), Edge(1, 0, UnhandledException)}, 0))
  {
  }
}
