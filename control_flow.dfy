/**
 * The control-flow graph the detectors consume: basic blocks holding
 * instructions, typed edges between blocks, one entry block. The graph is
 * built elsewhere and no detector changes it, so it is a value here.
 */
module ControlFlow {

  /** A basic block, identified by its label (unique within one graph). */
  type Block = nat

  /** How an invocation dispatches (the BCEL instruction class it belongs to). */
  datatype Dispatch = Static | Virtual | Interface | Special | Dynamic

  /**
   * A bytecode instruction, with the constant-pool operands the detectors
   * read already resolved: for an invocation the referenced type, the method
   * name and the signature; for ALOAD the local-variable slot; for GETFIELD
   * the owner type and the field name. Every other opcode is `Other`.
   */
  datatype Instruction =
    | Invoke(dispatch: Dispatch, owner: string, name: string, signature: string)
    | ALoad(slot: nat)
    | GetField(owner: string, field: string)
    | Other(opcode: string)

  /** The kinds of control-flow edges the graph builder produces. */
  datatype EdgeKind =
    | FallThrough | IfCmp | Switch | SwitchDefault | Goto | Jsr | Ret
    | Return | HandledException | UnhandledException | Start | Exit

  datatype Edge = Edge(source: Block, target: Block, kind: EdgeKind)

  /**
   * A method's graph: the instructions of each block (the key set is the
   * block set), the edges, and the entry block. Several edges may join the
   * same pair of blocks when their kinds differ.
   */
  datatype Cfg = Cfg(code: map<Block, seq<Instruction>>, edges: set<Edge>, entry: Block)

  /** The outgoing edges of `b`, of every kind. */
  function Outgoing(g: Cfg, b: Block): set<Edge>
  {
    set e | e in g.edges && e.source == b
  }

  /** The blocks the edges of `edges` point to. */
  function TargetsOf(edges: set<Edge>): set<Block>
  {
    set e | e in edges :: e.target
  }

  /** The edges of `edges` that are not unhandled-exception edges. */
  function HandledEdges(edges: set<Edge>): set<Edge>
  {
    set e | e in edges && e.kind != UnhandledException
  }

  /** The targets of the outgoing edges of `b`. */
  function Successors(g: Cfg, b: Block): set<Block>
  {
    TargetsOf(Outgoing(g, b))
  }

  /** A successor of `b` is the target of one of its outgoing edges. */
  lemma SuccessorEdge(g: Cfg, b: Block, y: Block) returns (e: Edge)
    requires y in Successors(g, b)
    ensures e in g.edges && e.source == b && e.target == y
  {
    e :| e in Outgoing(g, b) && e.target == y;
  }

  /** Every block some edge points to. */
  function Targets(g: Cfg): set<Block>
  {
    TargetsOf(g.edges)
  }

  /** The same graph with its unhandled-exception edges dropped. */
  function WithoutUnhandled(g: Cfg): (fg: Cfg)
    ensures fg.code == g.code && fg.entry == g.entry
    ensures forall e :: e in fg.edges <==> e in g.edges && e.kind != UnhandledException
  {
    g.(edges := HandledEdges(g.edges))
  }

  /** `p` is a walk of one or more blocks along edges of `g`. */
  ghost predicate IsPath(g: Cfg, p: seq<Block>)
  {
    |p| > 0 && forall i :: 0 <= i < |p| - 1 ==> p[i + 1] in Successors(g, p[i])
  }

  /** `b` is reachable, by zero or more edges, from some block in `starts`. */
  ghost predicate ReachedFrom(g: Cfg, starts: set<Block>, b: Block)
  {
    exists p :: IsPath(g, p) && p[0] in starts && p[|p| - 1] == b
  }

  /** `b` lies on a directed cycle: a walk of one or more edges leads from `b` back to `b`. */
  ghost predicate OnCycle(g: Cfg, b: Block)
  {
    exists p :: IsPath(g, p) && |p| >= 2 && p[0] == b && p[|p| - 1] == b
  }

  /** Some block reachable from the entry lies on a cycle. */
  ghost predicate HasReachableCycle(g: Cfg)
  {
    exists b :: ReachedFrom(g, {g.entry}, b) && OnCycle(g, b)
  }

  lemma StartIsReached(g: Cfg, starts: set<Block>, b: Block)
    requires b in starts
    ensures ReachedFrom(g, starts, b)
  {
    assert IsPath(g, [b]);
  }

  /** Reachability extends along one edge. */
  lemma ReachedStep(g: Cfg, starts: set<Block>, a: Block, b: Block)
    requires ReachedFrom(g, starts, a)
    requires b in Successors(g, a)
    ensures ReachedFrom(g, starts, b)
  {
    var p :| IsPath(g, p) && p[0] in starts && p[|p| - 1] == a;
    var q := p + [b];
    assert forall i :: 0 <= i < |q| - 1 ==> q[i] == p[i];
    assert IsPath(g, q);
  }

  /** Reachability is transitive through any intermediate block. */
  lemma ReachedTrans(g: Cfg, starts: set<Block>, a: Block, b: Block)
    requires ReachedFrom(g, starts, a)
    requires ReachedFrom(g, {a}, b)
    ensures ReachedFrom(g, starts, b)
  {
    var p :| IsPath(g, p) && p[0] in starts && p[|p| - 1] == a;
    var q :| IsPath(g, q) && q[0] == a && q[|q| - 1] == b;
    var r := p + q[1..];
    forall i | 0 <= i < |r| - 1
      ensures r[i + 1] in Successors(g, r[i])
    {
      if i < |p| - 1 {
        assert r[i] == p[i] && r[i + 1] == p[i + 1];
      } else {
        assert r[i] == q[i - |p| + 1] && r[i + 1] == q[i - |p| + 2];
      }
    }
    assert r[|r| - 1] == b by {
      if |q| == 1 {
        assert r == p;
      } else {
        assert r[|r| - 1] == q[|q| - 1];
      }
    }
    assert IsPath(g, r) && r[0] in starts;
  }

  /** Every block of a path that starts inside a successor-closed set stays inside it. */
  lemma {:induction false} PathStaysInside(g: Cfg, p: seq<Block>, c: set<Block>)
    requires IsPath(g, p) && p[0] in c
    requires forall v :: v in c ==> Successors(g, v) <= c
    ensures p[|p| - 1] in c
    decreases |p|
  {
    if |p| > 1 {
      var q := p[..|p| - 1];
      assert IsPath(g, q) by {
        forall i | 0 <= i < |q| - 1 ensures q[i + 1] in Successors(g, q[i]) {
          assert q[i] == p[i] && q[i + 1] == p[i + 1];
        }
      }
      PathStaysInside(g, q, c);
      assert p[|p| - 1] in Successors(g, p[|p| - 2]);
    }
  }

  /** A successor-closed set that contains the starts contains everything reached from them. */
  lemma ClosedContainsReached(g: Cfg, starts: set<Block>, c: set<Block>, b: Block)
    requires starts <= c
    requires forall v :: v in c ==> Successors(g, v) <= c
    requires ReachedFrom(g, starts, b)
    ensures b in c
  {
    var p :| IsPath(g, p) && p[0] in starts && p[|p| - 1] == b;
    PathStaysInside(g, p, c);
  }

  /** A reached block is a start or the target of some edge. */
  lemma ReachedWithin(g: Cfg, starts: set<Block>, b: Block)
    requires ReachedFrom(g, starts, b)
    ensures b in starts + Targets(g)
  {
    var p :| IsPath(g, p) && p[0] in starts && p[|p| - 1] == b;
    if |p| > 1 {
      var k := |p| - 2;
      assert p[k + 1] in Successors(g, p[k]);
    }
  }

  /** A block lies on a cycle exactly when it is reachable from its own successors. */
  lemma OnCycleIffReturns(g: Cfg, b: Block)
    ensures OnCycle(g, b) <==> ReachedFrom(g, Successors(g, b), b)
  {
    if OnCycle(g, b) {
      var p :| IsPath(g, p) && |p| >= 2 && p[0] == b && p[|p| - 1] == b;
      var q := p[1..];
      assert p[1] in Successors(g, p[0]);
      assert IsPath(g, q) by {
        forall i | 0 <= i < |q| - 1 ensures q[i + 1] in Successors(g, q[i]) {
          assert q[i] == p[i + 1] && q[i + 1] == p[i + 2];
        }
      }
      assert q[0] in Successors(g, b) && q[|q| - 1] == b;
    }
    if ReachedFrom(g, Successors(g, b), b) {
      var q :| IsPath(g, q) && q[0] in Successors(g, b) && q[|q| - 1] == b;
      var p := [b] + q;
      assert IsPath(g, p) by {
        forall i | 0 <= i < |p| - 1 ensures p[i + 1] in Successors(g, p[i]) {
          if i > 0 {
            assert p[i] == q[i - 1] && p[i + 1] == q[i];
          }
        }
      }
      assert |p| >= 2 && p[0] == b && p[|p| - 1] == b;
    }
  }

  /** In a graph whose every edge goes to a larger label, a path of two or more blocks ends above where it started. */
  lemma {:induction false} IncreasingPath(g: Cfg, p: seq<Block>)
    requires forall e :: e in g.edges ==> e.source < e.target
    requires IsPath(g, p) && |p| >= 2
    ensures p[0] < p[|p| - 1]
    decreases |p|
  {
    var k := |p| - 2;
    assert p[k + 1] in Successors(g, p[k]);
    if |p| > 2 {
      var q := p[..|p| - 1];
      assert IsPath(g, q) by {
        forall i | 0 <= i < |q| - 1 ensures q[i + 1] in Successors(g, q[i]) {
          assert q[i] == p[i] && q[i + 1] == p[i + 1];
        }
      }
      IncreasingPath(g, q);
    }
  }

  /** Such a graph has no cycle at all. */
  lemma IncreasingIsAcyclic(g: Cfg)
    requires forall e :: e in g.edges ==> e.source < e.target
    ensures !HasReachableCycle(g)
  {
    if HasReachableCycle(g) {
      var b :| ReachedFrom(g, {g.entry}, b) && OnCycle(g, b);
      var p :| IsPath(g, p) && |p| >= 2 && p[0] == b && p[|p| - 1] == b;
      IncreasingPath(g, p);
    }
  }
}
