/** The dependency graph of firepipe/graph.py: a node set plus forward and
    backward adjacency maps, grown by `add_node`/`add_edge` and ordered by
    Kahn's algorithm. */
module Graphs {
  import opened Wrappers
  import opened Digraph

  /** The three fields of a graph, as a value. */
  datatype Snapshot<T> = Snapshot(nodes: set<T>, outgoing: map<T, set<T>>, incoming: map<T, set<T>>)

  /** Every node has an entry in both maps, and the two maps describe the
      same edges: `b in outgoing[a]` exactly when `a in incoming[b]`. */
  ghost predicate Consistent<T>(g: Snapshot<T>) {
    && g.outgoing.Keys == g.nodes
    && g.incoming.Keys == g.nodes
    && (forall a, b {:trigger b in g.outgoing[a]} ::
          a in g.outgoing && b in g.outgoing[a] ==> b in g.incoming && a in g.incoming[b])
    && (forall a, b {:trigger a in g.incoming[b]} ::
          b in g.incoming && a in g.incoming[b] ==> a in g.outgoing && b in g.outgoing[a])
  }

  /** The edges, read from the forward map. */
  ghost function Edges<T>(g: Snapshot<T>): set<(T, T)> {
    set a, b | a in g.outgoing && b in g.outgoing[a] :: (a, b)
  }

  /** The graph after `add_node(n)`: `n` becomes a node, and gets empty
      adjacency sets only where it had none. */
  function WithNode<T(==)>(g: Snapshot<T>, n: T): (r: Snapshot<T>)
    ensures r.nodes == g.nodes + {n}
  {
    var outgoing := if n in g.outgoing then g.outgoing else g.outgoing[n := {}];
    var incoming := if n in g.incoming then g.incoming else g.incoming[n := {}];
    Snapshot(g.nodes + {n}, outgoing, incoming)
  }

  /** The graph after `add_edge(s, t)`: both endpoints are nodes, `t` is in
      `outgoing[s]` and `s` is in `incoming[t]`. */
  function WithEdge<T(==)>(g: Snapshot<T>, s: T, t: T): (r: Snapshot<T>)
    ensures r.nodes == g.nodes + {s, t}
  {
    Linked(WithNode(WithNode(g, s), t), s, t)
  }

  /** Records the edge `s -> t` in both maps of a graph that has both endpoints. */
  function Linked<T(==)>(h: Snapshot<T>, s: T, t: T): (r: Snapshot<T>)
    requires s in h.outgoing && t in h.incoming
    ensures r.nodes == h.nodes
  {
    h.(outgoing := h.outgoing[s := h.outgoing[s] + {t}],
       incoming := h.incoming[t := h.incoming[t] + {s}])
  }

  /** `add_node` keeps the graph consistent and adds no edge; on a node that
      is already present it changes nothing, so calling it twice is the same
      as calling it once. */
  lemma {:induction false} WithNodeKeepsEdges<T>(g: Snapshot<T>, n: T)
    requires Consistent(g)
    ensures Consistent(WithNode(g, n))
    ensures Edges(WithNode(g, n)) == Edges(g)
    ensures n in g.nodes ==> WithNode(g, n) == g
    ensures WithNode(WithNode(g, n), n) == WithNode(g, n)
  {
    var r := WithNode(g, n);
    assert forall a, b :: (a, b) in Edges(r) ==> (a, b) in Edges(g);
  }

  /** Recording an edge between two nodes keeps the graph consistent and
      adds exactly that edge. */
  lemma {:induction false} LinkedAddsOneEdge<T>(h: Snapshot<T>, s: T, t: T)
    requires Consistent(h) && s in h.nodes && t in h.nodes
    ensures Consistent(Linked(h, s, t))
    ensures Edges(Linked(h, s, t)) == Edges(h) + {(s, t)}
  {
    var r := Linked(h, s, t);
    forall a, b | a in r.outgoing && b in r.outgoing[a]
      ensures b in r.incoming && a in r.incoming[b]
    {
      if (a, b) != (s, t) {
        assert a in h.outgoing && b in h.outgoing[a];
      }
    }
    forall a, b | b in r.incoming && a in r.incoming[b]
      ensures a in r.outgoing && b in r.outgoing[a]
    {
      if (a, b) != (s, t) {
        assert b in h.incoming && a in h.incoming[b];
      }
    }
    forall a, b | (a, b) in Edges(r)
      ensures (a, b) in Edges(h) + {(s, t)}
    {
      if (a, b) != (s, t) {
        assert a in h.outgoing && b in h.outgoing[a];
      }
    }
    forall a, b | (a, b) in Edges(h) + {(s, t)}
      ensures (a, b) in Edges(r)
    {
      assert a in r.outgoing && b in r.outgoing[a];
    }
  }

  /** `add_edge(s, t)` keeps the graph consistent and adds exactly the edge
      `s -> t`. */
  lemma {:induction false} WithEdgeAddsOneEdge<T>(g: Snapshot<T>, s: T, t: T)
    requires Consistent(g)
    ensures Consistent(WithEdge(g, s, t))
    ensures Edges(WithEdge(g, s, t)) == Edges(g) + {(s, t)}
  {
    var h1 := WithNode(g, s);
    WithNodeKeepsEdges(g, s);
    WithNodeKeepsEdges(h1, t);
    LinkedAddsOneEdge(WithNode(h1, t), s, t);
  }

  /** The steps of `add_edge` one after the other: the source becomes a
      node, the edge is recorded forwards, the target becomes a node, the
      edge is recorded backwards. */
  lemma {:induction false} AddEdgeSteps<T>(g: Snapshot<T>, s: T, t: T)
    requires Consistent(g)
    ensures var h1 := WithNode(g, s);
            var f := h1.(outgoing := h1.outgoing[s := h1.outgoing[s] + {t}]);
            var h3 := WithNode(f, t);
            h3.(incoming := h3.incoming[t := h3.incoming[t] + {s}]) == WithEdge(g, s, t)
  {
  }

  /** A consistent graph is determined by its nodes and its edges. */
  lemma {:induction false} SameEdgesSameGraph<T>(g: Snapshot<T>, h: Snapshot<T>)
    requires Consistent(g) && Consistent(h)
    requires g.nodes == h.nodes && Edges(g) == Edges(h)
    ensures g == h
  {
    forall a | a in g.nodes
      ensures g.outgoing[a] == h.outgoing[a]
    {
      forall b | b in g.outgoing[a] ensures b in h.outgoing[a] {
        assert (a, b) in Edges(g);
      }
      forall b | b in h.outgoing[a] ensures b in g.outgoing[a] {
        assert (a, b) in Edges(h);
      }
    }
    forall b | b in g.nodes
      ensures g.incoming[b] == h.incoming[b]
    {
      forall a | a in g.incoming[b] ensures a in h.incoming[b] {
        assert (a, b) in Edges(g);
      }
      forall a | a in h.incoming[b] ensures a in g.incoming[b] {
        assert (a, b) in Edges(h);
      }
    }
  }

  /** Adding an edge twice leaves the same graph as adding it once. */
  lemma {:induction false} WithEdgeIdempotent<T>(g: Snapshot<T>, s: T, t: T)
    requires Consistent(g)
    ensures Consistent(WithEdge(g, s, t))
    ensures WithEdge(WithEdge(g, s, t), s, t) == WithEdge(g, s, t)
  {
    var once := WithEdge(g, s, t);
    WithEdgeAddsOneEdge(g, s, t);
    WithEdgeAddsOneEdge(once, s, t);
    SameEdgesSameGraph(WithEdge(once, s, t), once);
  }

  /** The graph after `add_edge` has been called on each pair of `es` in
      turn, as `fork` and `join` do. */
  function WithEdges<T(==)>(g: Snapshot<T>, es: seq<(T, T)>): (r: Snapshot<T>)
    ensures r.nodes == g.nodes + Endpoints(set e | e in es)
  {
    if es == [] then g
    else
      var init, last := es[..|es| - 1], es[|es| - 1];
      PairsSnoc(es, init, last);
      WithEdge(WithEdges(g, init), last.0, last.1)
  }

  /** One more `add_edge` extends a run of them. */
  lemma {:induction false} WithEdgesSnoc<T>(g: Snapshot<T>, es: seq<(T, T)>, i: int)
    requires 0 <= i < |es|
    ensures WithEdges(g, es[..i + 1]) == WithEdge(WithEdges(g, es[..i]), es[i].0, es[i].1)
  {
    assert es[..i + 1][..i] == es[..i];
  }

  /** The nodes an edge set touches. */
  ghost function Endpoints<T>(es: set<(T, T)>): set<T> {
    (set e | e in es :: e.0) + (set e | e in es :: e.1)
  }

  /** The pairs `fork(u, ds)` connects, in order. */
  function OutFan<T>(u: T, ds: seq<T>): (es: seq<(T, T)>)
    ensures |es| == |ds| && forall i :: 0 <= i < |ds| ==> es[i] == (u, ds[i])
  {
    seq(|ds|, i requires 0 <= i < |ds| => (u, ds[i]))
  }

  /** The pairs `join(us, d)` connects, in order. */
  function InFan<T>(us: seq<T>, d: T): (es: seq<(T, T)>)
    ensures |es| == |us| && forall i :: 0 <= i < |us| ==> es[i] == (us[i], d)
  {
    seq(|us|, i requires 0 <= i < |us| => (us[i], d))
  }

  /** A run of `add_edge` calls keeps the graph consistent and adds exactly
      the edges it names. */
  lemma {:induction false} WithEdgesAddsEdges<T>(g: Snapshot<T>, es: seq<(T, T)>)
    requires Consistent(g)
    ensures Consistent(WithEdges(g, es))
    ensures Edges(WithEdges(g, es)) == Edges(g) + (set e | e in es)
  {
    if es != [] {
      var init, last := es[..|es| - 1], es[|es| - 1];
      var before := WithEdges(g, init);
      assert WithEdges(g, es) == WithEdge(before, last.0, last.1);
      WithEdgesAddsEdges(g, init);
      WithEdgeAddsOneEdge(before, last.0, last.1);
      PairsSnoc(es, init, last);
    }
  }

  lemma {:induction false} PairsSnoc<T>(es: seq<(T, T)>, init: seq<(T, T)>, last: (T, T))
    requires es != [] && init == es[..|es| - 1] && last == es[|es| - 1]
    ensures (set e | e in es) == (set e | e in init) + {last}
  {
    assert es == init + [last];
  }

  /** Only the set of pairs matters: the order of the calls and repeated
      pairs make no difference. */
  lemma {:induction false} WithEdgesOrderIrrelevant<T>(g: Snapshot<T>, es1: seq<(T, T)>, es2: seq<(T, T)>)
    requires Consistent(g)
    requires forall e :: e in es1 <==> e in es2
    ensures WithEdges(g, es1) == WithEdges(g, es2)
  {
    assert (set e | e in es1) == (set e | e in es2);
    WithEdgesAddsEdges(g, es1);
    WithEdgesAddsEdges(g, es2);
    SameEdgesSameGraph(WithEdges(g, es1), WithEdges(g, es2));
  }

  /** Repeating a run of `add_edge` calls changes nothing. */
  lemma {:induction false} WithEdgesIdempotent<T>(g: Snapshot<T>, es: seq<(T, T)>)
    requires Consistent(g)
    ensures WithEdges(WithEdges(g, es), es) == WithEdges(g, es)
  {
    var once := WithEdges(g, es);
    WithEdgesAddsEdges(g, es);
    WithEdgesAddsEdges(once, es);
    SameEdgesSameGraph(WithEdges(once, es), once);
  }

  /** The failure `topological_sort` raises: edges are left once no node is
      free of incoming edges. */
  datatype SortError = GraphIsCyclic

  /** A directed graph over nodes compared by identity. */
  class Graph<T(==)> {
    var nodes: set<T>
    var outgoing: map<T, set<T>>
    var incoming: map<T, set<T>>

    ghost function State(): Snapshot<T>
      reads this
    {
      Snapshot(nodes, outgoing, incoming)
    }

    ghost predicate Valid()
      reads this
    {
      Consistent(State())
    }

    constructor ()
      ensures Valid()
      ensures nodes == {} && Edges(State()) == {}
    {
      nodes := {};
      outgoing := map[];
      incoming := map[];
    }

    /** `add_node`: idempotent, existing adjacency sets are kept. */
    method AddNode(node: T)
      modifies this
      ensures State() == WithNode(old(State()), node)
      ensures old(Valid()) ==> Valid() && Edges(State()) == Edges(old(State()))
    {
      ghost var g0 := State();
      nodes := nodes + {node};
      if node !in outgoing {
        outgoing := outgoing[node := {}];
      }
      if node !in incoming {
        incoming := incoming[node := {}];
      }
      if Consistent(g0) {
        WithNodeKeepsEdges(g0, node);
      }
    }

    /** `add_edge`: a missing endpoint is added as a node first, then the edge
        is recorded forwards and backwards. */
    method AddEdge(source: T, target: T)
      requires Valid()
      modifies this
      ensures Valid()
      ensures State() == WithEdge(old(State()), source, target)
      ensures Edges(State()) == Edges(old(State())) + {(source, target)}
    {
      ghost var g0 := State();
      WithNodeKeepsEdges(g0, source);
      if source !in nodes {
        AddNode(source);
      }
      ghost var h1 := State();
      assert h1 == WithNode(g0, source);
      outgoing := outgoing[source := outgoing[source] + {target}];
      ghost var f := State();
      if target !in nodes {
        AddNode(target);
      }
      ghost var h3 := State();
      assert h3 == WithNode(f, target);
      incoming := incoming[target := incoming[target] + {source}];
      assert State() == h3.(incoming := h3.incoming[target := h3.incoming[target] + {source}]);
      AddEdgeSteps(g0, source, target);
      WithEdgeAddsOneEdge(g0, source, target);
    }

    /** `topological_sort`, Kahn's algorithm on copies of the adjacency maps.
        The stored graph is only read. */
    method TopologicalSort() returns (r: Result<seq<T>, SortError>)
      requires Valid()
      ensures r.Success? <==> !HasCycle(outgoing)
      ensures r.Success? ==> IsTopologicalOrder(nodes, outgoing, r.value)
    {
      ghost var g := State();
      var queue := Roots(nodes, incoming);
      var out := outgoing;
      var inc := incoming;
      var result: seq<T> := [];
      ghost var emitted: set<T> := {};
      while queue != []
        invariant KahnInvariant(g, out, inc, emitted)
        invariant QueueInvariant(g, inc, queue, emitted, emitted)
        invariant OutputInvariant(g, result, emitted)
        decreases nodes - emitted
      {
        var n := queue[0];
        PopStep(g, inc, queue, emitted);
        queue := queue[1..];
        OutputStep(g, result, emitted, n);
        result := result + [n];
        ghost var out0, inc0 := out, inc;
        out, inc, queue := ReleaseSuccessors(n, nodes, emitted + {n}, out, inc, queue);
        ReleaseStep(g, n, emitted, out0, inc0, out, inc);
        emitted := emitted + {n};
      }
      if exists a :: a in out && out[a] != {} {
        StuckMeansCycle(g, out, inc, emitted);
        r := Failure(GraphIsCyclic);
      } else {
        DrainedMeansOrder(g, out, inc, result, emitted);
        r := Success(result);
      }
    }
  }

  /** The working copies after the nodes of `emitted` have been output: their
      outgoing edges are consumed, and nothing else is. */
  ghost predicate KahnInvariant<T>(g: Snapshot<T>, out: map<T, set<T>>, inc: map<T, set<T>>, emitted: set<T>) {
    && Consistent(g)
    && emitted <= g.nodes
    && out.Keys == g.nodes && inc.Keys == g.nodes
    && (forall a {:trigger out[a]} :: a in g.nodes ==> out[a] == if a in emitted then {} else g.outgoing[a])
    && (forall b {:trigger inc[b]} :: b in g.nodes ==> inc[b] == g.incoming[b] - emitted)
  }

  /** The queue holds, once each, exactly the nodes that are neither output
      (`done`) nor waiting yet have no incoming edge left. */
  ghost predicate QueueInvariant<T>(g: Snapshot<T>, inc: map<T, set<T>>, queue: seq<T>, emitted: set<T>, done: set<T>) {
    && inc.Keys == g.nodes
    && Distinct(queue)
    && (forall x {:trigger x in queue} :: x in queue ==> x in g.nodes && x !in done)
    && (forall b {:trigger inc[b]} :: b in g.nodes ==> (inc[b] == {} <==> b in done || b in queue))
  }

  /** The output so far: the nodes of `emitted`, once each, each after all of
      its predecessors. */
  ghost predicate OutputInvariant<T>(g: Snapshot<T>, result: seq<T>, emitted: set<T>) {
    && emitted == (set x | x in result)
    && Distinct(result)
    && emitted <= g.incoming.Keys
    && (forall j :: 0 <= j < |result| ==> g.incoming[result[j]] <= (set x | x in result[..j]))
  }

  /** The head of the queue is a node ready to be output, and the rest of
      the queue meets what `ReleaseSuccessors` asks of it. */
  lemma {:induction false} PopStep<T>(g: Snapshot<T>, inc: map<T, set<T>>, queue: seq<T>, emitted: set<T>)
    requires QueueInvariant(g, inc, queue, emitted, emitted) && queue != []
    ensures queue[0] in g.nodes && queue[0] !in emitted && inc[queue[0]] == {}
    ensures Distinct(queue[1..])
    ensures forall x {:trigger x in queue[1..]} :: x in queue[1..] ==> x in g.nodes && x !in emitted + {queue[0]}
    ensures forall b {:trigger inc[b]} :: b in g.nodes ==>
      (inc[b] == {} <==> b in emitted + {queue[0]} || b in queue[1..])
  {
    assert queue[0] in queue;
    forall x | x in queue[1..]
      ensures x in g.nodes && x !in emitted && x != queue[0]
    {
      var k :| 0 <= k < |queue[1..]| && queue[1..][k] == x;
      assert queue[k + 1] == x && x in queue;
      assert queue[0] != queue[k + 1];
    }
    forall b | b in g.nodes
      ensures inc[b] == {} <==> b in emitted + {queue[0]} || b in queue[1..]
    {
      if b in queue && b != queue[0] {
        var k :| 0 <= k < |queue| && queue[k] == b;
        assert queue[1..][k - 1] == b;
      }
    }
  }

  /** Appending a node whose predecessors are all output keeps the output
      in order. */
  lemma {:induction false} OutputStep<T>(g: Snapshot<T>, result: seq<T>, emitted: set<T>, n: T)
    requires OutputInvariant(g, result, emitted)
    requires n in g.incoming && n !in emitted && g.incoming[n] <= emitted
    ensures OutputInvariant(g, result + [n], emitted + {n})
  {
    var r := result + [n];
    assert r[..|result|] == result;
    forall j | 0 <= j < |r|
      ensures g.incoming[r[j]] <= (set x | x in r[..j])
    {
      if j < |result| {
        assert r[..j] == result[..j];
      }
    }
  }

  /** The nodes with no incoming edge, in any order. */
  method Roots<T(==)>(nodes: set<T>, incoming: map<T, set<T>>) returns (queue: seq<T>)
    requires nodes <= incoming.Keys
    ensures Distinct(queue)
    ensures forall x :: x in queue <==> x in nodes && incoming[x] == {}
  {
    queue := [];
    var pending := nodes;
    while pending != {}
      invariant pending <= nodes
      invariant Distinct(queue)
      invariant forall x :: x in queue ==> x in nodes && x !in pending && incoming[x] == {}
      invariant forall x :: x in nodes && x !in pending && incoming[x] == {} ==> x in queue
      decreases pending
    {
      var n :| n in pending;
      if incoming[n] == {} {
        queue := queue + [n];
      }
      pending := pending - {n};
    }
  }

  /** The inner loop of `topological_sort` for the node `n` just output:
      every edge `n -> d` is removed from both copies, and `d` is queued when
      its last incoming edge goes. Every removal finds what it removes. */
  method ReleaseSuccessors<T(==)>(n: T, ghost nodes: set<T>, ghost done: set<T>,
                                  out0: map<T, set<T>>, inc0: map<T, set<T>>, queue0: seq<T>)
    returns (out: map<T, set<T>>, inc: map<T, set<T>>, queue: seq<T>)
    requires n in out0 && inc0.Keys == nodes && out0[n] <= nodes
    requires forall d :: d in out0[n] ==> n in inc0[d]
    requires Distinct(queue0)
    requires forall x {:trigger x in queue0} :: x in queue0 ==> x in nodes && x !in done
    requires forall b {:trigger inc0[b]} :: b in nodes ==> (inc0[b] == {} <==> b in done || b in queue0)
    ensures out == out0[n := {}]
    ensures inc.Keys == nodes
    ensures forall b {:trigger inc[b]} :: b in nodes ==> inc[b] == if b in out0[n] then inc0[b] - {n} else inc0[b]
    ensures Distinct(queue)
    ensures |queue0| <= |queue| && queue[..|queue0|] == queue0
    ensures forall x {:trigger x in queue} :: x in queue ==> x in nodes && x !in done
    ensures forall b {:trigger inc[b]} :: b in nodes ==> (inc[b] == {} <==> b in done || b in queue)
  {
    out, inc, queue := out0, inc0, queue0;
    var rest := out[n];
    while rest != {}
      invariant rest <= out0[n] && out == out0[n := rest]
      invariant inc.Keys == nodes
      invariant forall b {:trigger inc[b]} :: b in nodes ==>
        inc[b] == if b in out0[n] && b !in rest then inc0[b] - {n} else inc0[b]
      invariant Distinct(queue)
      invariant |queue0| <= |queue| && queue[..|queue0|] == queue0
      invariant forall x {:trigger x in queue} :: x in queue ==> x in nodes && x !in done
      invariant forall b {:trigger inc[b]} :: b in nodes ==> (inc[b] == {} <==> b in done || b in queue)
      decreases rest
    {
      var d :| d in rest;
      assert inc[d] == inc0[d];
      assert d in out[n] && d in inc && n in inc[d];
      assert d !in queue && d !in done;
      out := out[n := out[n] - {d}];
      inc := inc[d := inc[d] - {n}];
      if inc[d] == {} {
        queue := queue + [d];
      }
      rest := rest - {d};
    }
  }

  /** Releasing the successors of the node output next moves the working
      copies from one stage of Kahn's algorithm to the next. */
  lemma {:induction false} ReleaseStep<T>(g: Snapshot<T>, n: T, emitted: set<T>,
                       out0: map<T, set<T>>, inc0: map<T, set<T>>, out: map<T, set<T>>, inc: map<T, set<T>>)
    requires KahnInvariant(g, out0, inc0, emitted)
    requires n in g.nodes && n !in emitted
    requires out == out0[n := {}] && inc.Keys == g.nodes
    requires forall b {:trigger inc[b]} :: b in g.nodes ==> inc[b] == if b in out0[n] then inc0[b] - {n} else inc0[b]
    ensures KahnInvariant(g, out, inc, emitted + {n})
  {
    ReleaseOutgoing(g.nodes, g.outgoing, n, emitted, out0, out);
    ReleaseIncoming(g, n, emitted, out0[n], inc0, inc);
  }

  /** The outgoing copy after the release: `n` has no edge left. */
  lemma {:induction false} ReleaseOutgoing<T>(nodes: set<T>, outgoing: map<T, set<T>>, n: T, emitted: set<T>,
                                              out0: map<T, set<T>>, out: map<T, set<T>>)
    requires out0.Keys == nodes && outgoing.Keys == nodes && n in nodes && out == out0[n := {}]
    requires forall a {:trigger out0[a]} :: a in nodes ==> out0[a] == if a in emitted then {} else outgoing[a]
    ensures out.Keys == nodes
    ensures forall a {:trigger out[a]} :: a in nodes ==> out[a] == if a in emitted + {n} then {} else outgoing[a]
  {
    forall a | a in nodes
      ensures out[a] == if a in emitted + {n} then {} else outgoing[a]
    {
      if a != n {
        assert out[a] == out0[a];
      }
    }
  }

  /** The incoming copy after the release: `n` joins what is taken away. */
  lemma {:induction false} ReleaseIncoming<T>(g: Snapshot<T>, n: T, emitted: set<T>, succ: set<T>,
                                              inc0: map<T, set<T>>, inc: map<T, set<T>>)
    requires Consistent(g) && n in g.nodes && succ == g.outgoing[n]
    requires inc0.Keys == g.nodes && inc.Keys == g.nodes
    requires forall b {:trigger inc0[b]} :: b in g.nodes ==> inc0[b] == g.incoming[b] - emitted
    requires forall b {:trigger inc[b]} :: b in g.nodes ==> inc[b] == if b in succ then inc0[b] - {n} else inc0[b]
    ensures forall b {:trigger inc[b]} :: b in g.nodes ==> inc[b] == g.incoming[b] - (emitted + {n})
  {
    forall b | b in g.nodes
      ensures inc[b] == g.incoming[b] - (emitted + {n})
    {
      if b !in succ {
        assert n !in g.incoming[b];
      }
    }
  }

  /** Edges left over once the queue is empty mean a cycle. */
  lemma {:induction false} StuckMeansCycle<T>(g: Snapshot<T>, out: map<T, set<T>>, inc: map<T, set<T>>, emitted: set<T>)
    requires KahnInvariant(g, out, inc, emitted)
    requires forall b {:trigger inc[b]} :: b in g.nodes ==> (inc[b] == {} <==> b in emitted)
    requires exists a :: a in out && out[a] != {}
    ensures HasCycle(g.outgoing)
  {
    var core := g.nodes - emitted;
    var a :| a in out && out[a] != {};
    assert a in core;
    StuckCoreSelfFed(g, inc, emitted);
    SelfFedCoreHasCycle(g.outgoing, core);
  }

  /** Every node not output still has an incoming edge, and its source is
      not output either. */
  lemma {:induction false} StuckCoreSelfFed<T>(g: Snapshot<T>, inc: map<T, set<T>>, emitted: set<T>)
    requires Consistent(g) && inc.Keys == g.nodes
    requires forall b {:trigger inc[b]} :: b in g.nodes ==> inc[b] == g.incoming[b] - emitted
    requires forall b {:trigger inc[b]} :: b in g.nodes ==> (inc[b] == {} <==> b in emitted)
    ensures SelfFed(g.outgoing, g.nodes - emitted)
  {
    var core := g.nodes - emitted;
    forall u | u in core
      ensures HasPredecessorIn(g.outgoing, core, u)
    {
      var p :| p in inc[u];
      assert p in core && Edge(g.outgoing, p, u);
    }
  }

  /** With no edge left, the output lists every node once, each after all of
      its predecessors. */
  lemma {:induction false} DrainedMeansOrder<T>(g: Snapshot<T>, out: map<T, set<T>>, inc: map<T, set<T>>,
                             result: seq<T>, emitted: set<T>)
    requires KahnInvariant(g, out, inc, emitted)
    requires OutputInvariant(g, result, emitted)
    requires forall b {:trigger inc[b]} :: b in g.nodes ==> (inc[b] == {} <==> b in emitted)
    requires forall a {:trigger out[a]} :: a in out ==> out[a] == {}
    ensures IsTopologicalOrder(g.nodes, g.outgoing, result)
    ensures !HasCycle(g.outgoing)
  {
    forall b | b in g.nodes
      ensures b in result
    {
    }
    forall i, j | 0 <= i < |result| && 0 <= j < |result| && Edge(g.outgoing, result[i], result[j])
      ensures i < j
    {
      assert result[i] in (set x | x in result[..j]);
    }
    TopologicalOrderExcludesCycle(g.nodes, g.outgoing, result);
  }
}
