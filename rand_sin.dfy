/**
 * The random-before-sin detector: a block holding a call to
 * java.lang.Math.random is a source, a block holding a call to
 * java.lang.Math.sin is a sink, and the method is flagged when some sink
 * block can be reached from some source block along edges of any kind.
 */
module RandSin {
  import opened ControlFlow

  const MathClass := "java.lang.Math"

  /** A static call of java.lang.Math.sin; only static calls on java.lang.Math qualify. */
  predicate IsSinkInstruction(ins: Instruction): (r: bool)
    ensures r ==> ins.Invoke? && ins.dispatch == Static && ins.owner == MathClass
  {
    ins.Invoke? && ins.dispatch == Static && ins.owner == MathClass && ins.name == "sin"
  }

  /**
   * A static call of java.lang.Math.random; only static calls on
   * java.lang.Math qualify, and no source instruction is also a sink.
   */
  predicate IsSourceInstruction(ins: Instruction): (r: bool)
    ensures r ==> ins.Invoke? && ins.dispatch == Static && ins.owner == MathClass
    ensures r ==> !IsSinkInstruction(ins)
  {
    ins.Invoke? && ins.dispatch == Static && ins.owner == MathClass && ins.name == "random"
  }

  predicate HasSource(instrs: seq<Instruction>)
  {
    exists k :: 0 <= k < |instrs| && IsSourceInstruction(instrs[k])
  }

  predicate HasSink(instrs: seq<Instruction>)
  {
    exists k :: 0 <= k < |instrs| && IsSinkInstruction(instrs[k])
  }

  /** The blocks holding at least one source instruction. */
  ghost function SourceBlocks(g: Cfg): set<Block>
  {
    set b | b in g.code && HasSource(g.code[b])
  }

  /** The blocks holding at least one sink instruction. */
  ghost function SinkBlocks(g: Cfg): set<Block>
  {
    set b | b in g.code && HasSink(g.code[b])
  }

  /** Some block of `sinks` is reachable from some block of `sources`. */
  ghost predicate SourceReachesSink(g: Cfg, sources: set<Block>, sinks: set<Block>)
  {
    exists t :: t in sinks && ReachedFrom(g, sources, t)
  }

  /** An element of one sequence occurs in every sequence with the same multiset. */
  lemma ElementSurvivesPermutation(u: seq<Instruction>, v: seq<Instruction>, k: nat)
    requires multiset(u) == multiset(v) && k < |u|
    ensures exists j :: 0 <= j < |v| && v[j] == u[k]
  {
    assert u[k] in multiset(u);
    assert u[k] in v;
  }

  /** Classification looks only at which instructions a block holds, never at their order. */
  lemma ClassificationIgnoresOrder(s: seq<Instruction>, t: seq<Instruction>)
    requires multiset(s) == multiset(t)
    ensures HasSource(s) <==> HasSource(t)
    ensures HasSink(s) <==> HasSink(t)
  {
    forall k | 0 <= k < |s|
      ensures exists j :: 0 <= j < |t| && t[j] == s[k]
    {
      ElementSurvivesPermutation(s, t, k);
    }
    forall k | 0 <= k < |t|
      ensures exists j :: 0 <= j < |s| && s[j] == t[k]
    {
      ElementSurvivesPermutation(t, s, k);
    }
  }

  /**
   * The first pass of the detector: every block whose instructions include
   * a source is put in `sources`, every block whose instructions include a
   * sink in `sinks`. Blocks are visited in an unspecified order.
   */
  method ClassifyBlocks(g: Cfg) returns (sources: set<Block>, sinks: set<Block>)
    ensures forall b :: b in sources <==> b in g.code && HasSource(g.code[b])
    ensures forall b :: b in sinks <==> b in g.code && HasSink(g.code[b])
  {
    sources, sinks := {}, {};
    var pending := g.code.Keys;
    while pending != {}
      invariant pending <= g.code.Keys
      invariant forall b :: b in sources <==> b in g.code.Keys - pending && HasSource(g.code[b])
      invariant forall b :: b in sinks <==> b in g.code.Keys - pending && HasSink(g.code[b])
      decreases pending
    {
      var block :| block in pending;
      pending := pending - {block};
      var instrs := g.code[block];
      var i := 0;
      while i < |instrs|
        invariant 0 <= i <= |instrs|
        invariant forall b :: b in sources <==>
          (b in g.code.Keys - pending - {block} && HasSource(g.code[b])) ||
          (b == block && exists k :: 0 <= k < i && IsSourceInstruction(instrs[k]))
        invariant forall b :: b in sinks <==>
          (b in g.code.Keys - pending - {block} && HasSink(g.code[b])) ||
          (b == block && exists k :: 0 <= k < i && IsSinkInstruction(instrs[k]))
      {
        if IsSourceInstruction(instrs[i]) {
          sources := sources + {block};
        }
        if IsSinkInstruction(instrs[i]) {
          sinks := sinks + {block};
        }
        i := i + 1;
      }
    }
  }

  /**
   * The inner loop of the search: every successor of `vertex` that is not
   * yet in `reachable` is added to the to-do set.
   */
  method QueueSuccessors(g: Cfg, vertex: Block, todo: set<Block>, reachable: set<Block>)
    returns (todo': set<Block>)
    ensures todo' == todo + (Successors(g, vertex) - reachable)
  {
    todo' := todo;
    var neighbors := Outgoing(g, vertex);
    while neighbors != {}
      invariant neighbors <= Outgoing(g, vertex)
      invariant todo' == todo + (TargetsOf(Outgoing(g, vertex) - neighbors) - reachable)
      decreases neighbors
    {
      var edge :| edge in neighbors;
      neighbors := neighbors - {edge};
      if edge.target !in reachable {
        todo' := todo' + {edge.target};
      }
      assert Outgoing(g, vertex) - neighbors == (Outgoing(g, vertex) - (neighbors + {edge})) + {edge};
    }
    assert Outgoing(g, vertex) - neighbors == Outgoing(g, vertex);
  }

  /**
   * What holds of the search state at the head of each iteration: the
   * blocks taken so far (`popped`) are exactly what `reachable` added to
   * the sources, none of them is a sink or is queued again, every queued
   * or taken block is reachable from a source, and the successors of a
   * taken block are queued or already reachable.
   */
  ghost predicate SearchInvariant(g: Cfg, sources: set<Block>, sinks: set<Block>,
                                  todo: set<Block>, reachable: set<Block>, popped: set<Block>)
  {
    && todo <= sources + Targets(g)
    && popped <= sources + Targets(g)
    && reachable == sources + popped
    && todo * popped == {}
    && sources <= todo + popped
    && popped * sinks == {}
    && (forall v :: v in todo + popped ==> ReachedFrom(g, sources, v))
    && (forall v :: v in popped ==> Successors(g, v) <= todo + reachable)
  }

  /** One iteration of the search that does not meet a sink keeps the invariant. */
  lemma SearchStep(g: Cfg, sources: set<Block>, sinks: set<Block>,
                   todo: set<Block>, reachable: set<Block>, popped: set<Block>, vertex: Block)
    requires SearchInvariant(g, sources, sinks, todo, reachable, popped)
    requires vertex in todo && vertex !in sinks
    ensures vertex in sources + Targets(g) && vertex !in popped
    ensures SearchInvariant(g, sources, sinks,
                            (todo - {vertex}) + (Successors(g, vertex) - (reachable + {vertex})),
                            reachable + {vertex}, popped + {vertex})
  {
    var todo' := (todo - {vertex}) + (Successors(g, vertex) - (reachable + {vertex}));
    var reachable', popped' := reachable + {vertex}, popped + {vertex};
    assert Successors(g, vertex) <= Targets(g);
    assert todo' <= sources + Targets(g);
    assert todo' * popped' == {};
    assert sources <= todo' + popped';
    forall v | v in todo' + popped'
      ensures ReachedFrom(g, sources, v)
    {
      if v !in todo + popped {
        ReachedStep(g, sources, vertex, v);
      }
    }
    forall v | v in popped'
      ensures Successors(g, v) <= todo' + reachable'
    {
      if v != vertex {
        assert Successors(g, v) <= todo + reachable;
      }
    }
  }

  /** When nothing is left to do, no sink is reachable from a source. */
  lemma SearchExhausted(g: Cfg, sources: set<Block>, sinks: set<Block>,
                        reachable: set<Block>, popped: set<Block>)
    requires SearchInvariant(g, sources, sinks, {}, reachable, popped)
    ensures !SourceReachesSink(g, sources, sinks)
  {
    assert sources <= popped && reachable == popped;
    assert forall v :: v in popped ==> Successors(g, v) <= popped;
    forall t | t in sinks
      ensures !ReachedFrom(g, sources, t)
    {
      if ReachedFrom(g, sources, t) {
        ClosedContainsReached(g, sources, popped, t);
      }
    }
  }

  /**
   * The second pass: a search seeded with every source at once, over the
   * successors of every edge kind. `reachable` starts as a copy of the
   * sources and gains each block as it is taken from the to-do set; a
   * successor already in `reachable` is not queued again. The ghost set
   * `popped` holds the blocks taken so far: it only grows and its blocks are
   * never queued again, which bounds the number of iterations.
   */
  method HasPath(g: Cfg, sources: set<Block>, sinks: set<Block>) returns (found: bool)
    ensures found <==> SourceReachesSink(g, sources, sinks)
  {
    var todo := sources;
    var reachable := sources;
    ghost var popped: set<Block> := {};
    forall v | v in sources
      ensures ReachedFrom(g, sources, v)
    {
      StartIsReached(g, sources, v);
    }
    while todo != {}
      invariant SearchInvariant(g, sources, sinks, todo, reachable, popped)
      decreases (sources + Targets(g)) - popped
    {
      var vertex :| vertex in todo;
      todo := todo - {vertex};
      if vertex in sinks {
        assert ReachedFrom(g, sources, vertex);
        return true;
      }
      SearchStep(g, sources, sinks, todo + {vertex}, reachable, popped, vertex);
      reachable := reachable + {vertex};
      popped := popped + {vertex};
      todo := QueueSuccessors(g, vertex, todo, reachable);
    }
    SearchExhausted(g, sources, sinks, reachable, popped);
    return false;
  }

  /** A block that is both a source and a sink is a path of length zero. */
  lemma SourceSinkBlockIsPath(g: Cfg, sources: set<Block>, sinks: set<Block>)
    requires sources * sinks != {}
    ensures SourceReachesSink(g, sources, sinks)
  {
    var b :| b in sources * sinks;
    StartIsReached(g, sources, b);
  }

  /** Without a source or without a sink there is nothing to find. */
  lemma NoSourceOrNoSink(g: Cfg, sources: set<Block>, sinks: set<Block>)
    requires sources == {} || sinks == {}
    ensures !SourceReachesSink(g, sources, sinks)
  {
  }

  /**
   * The detector as a whole: classify, then search. The method is flagged
   * exactly when a sink block is reachable from a source block.
   */
  method ReportsRandBeforeSin(g: Cfg) returns (report: bool)
    ensures report <==> SourceReachesSink(g, SourceBlocks(g), SinkBlocks(g))
  {
    var sources, sinks := ClassifyBlocks(g);
    assert sources == SourceBlocks(g) && sinks == SinkBlocks(g);
    report := HasPath(g, sources, sinks);
  }

  const RandomCall := Invoke(Static, MathClass, "random", "()D")
  const SinCall := Invoke(Static, MathClass, "sin", "(D)D")

  /** Math.random() followed by Math.sin() in one block: the method is flagged without following any edge. */
  lemma RandomThenSinInOneBlock()
    ensures var g := Cfg(map[0 := [RandomCall, SinCall]], {}, 0);
            SourceReachesSink(g, SourceBlocks(g), SinkBlocks(g))
  {
    var g := Cfg(map[0 := [RandomCall, SinCall]], {}, 0);
    assert IsSourceInstruction(g.code[0][0]) && IsSinkInstruction(g.code[0][1]);
    assert 0 in SourceBlocks(g) * SinkBlocks(g);
    SourceSinkBlockIsPath(g, SourceBlocks(g), SinkBlocks(g));
  }

  /** Math.random() in block 0 and Math.sin() in block 2, with the single edge 0 -> 1: the method is not flagged. */
  lemma SinkOutOfReach()
    ensures var g := Cfg(map[0 := [RandomCall], 1 := [], 2 := [SinCall]], {Edge(0, 1, FallThrough)}, 0);
            !SourceReachesSink(g, SourceBlocks(g), SinkBlocks(g))
  {
    var g := Cfg(map[0 := [RandomCall], 1 := [], 2 := [SinCall]], {Edge(0, 1, FallThrough)}, 0);
    assert SourceBlocks(g) <= {0};
    assert Successors(g, 0) == {1};
    assert Successors(g, 1) == {};
    forall t | t in SinkBlocks(g)
      ensures !ReachedFrom(g, SourceBlocks(g), t)
    {
      if ReachedFrom(g, SourceBlocks(g), t) {
        ClosedContainsReached(g, SourceBlocks(g), {0, 1}, t);
      }
    }
  }
}
