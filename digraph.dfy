/** Facts about directed graphs given as adjacency maps (node -> set of
    successors): topological orders, cycles, and the two links between them
    that make Kahn's algorithm a cycle detector. */
module Digraph {

  /** There is an edge from `a` to `b`. */
  ghost predicate Edge<T>(out: map<T, set<T>>, a: T, b: T) {
    a in out && b in out[a]
  }

  /** Both endpoints of every edge are nodes. */
  ghost predicate Closed<T>(nodes: set<T>, out: map<T, set<T>>) {
    forall a, b {:trigger b in out[a]} :: a in out && b in out[a] ==> a in nodes && b in nodes
  }

  ghost predicate Distinct<T>(s: seq<T>) {
    forall i, j :: 0 <= i < j < |s| ==> s[i] != s[j]
  }

  /** `order` lists every node exactly once, and the source of each edge
      before its target. */
  ghost predicate IsTopologicalOrder<T>(nodes: set<T>, out: map<T, set<T>>, order: seq<T>) {
    && Distinct(order)
    && (forall x :: x in order ==> x in nodes)
    && (forall x :: x in nodes ==> x in order)
    && (forall i, j :: 0 <= i < |order| && 0 <= j < |order| && Edge(out, order[i], order[j]) ==> i < j)
  }

  /** Consecutive elements of `p` are joined by edges. */
  ghost predicate IsWalk<T>(out: map<T, set<T>>, p: seq<T>) {
    forall k :: 0 <= k < |p| - 1 ==> Edge(out, p[k], p[k + 1])
  }

  /** A walk of at least one edge that ends where it starts. */
  ghost predicate IsCycle<T>(out: map<T, set<T>>, older p: seq<T>) {
    && |p| >= 2
    && (forall k :: 0 <= k < |p| ==> p[k] in out)
    && p[0] == p[|p| - 1]
    && IsWalk(out, p)
  }

  ghost predicate HasCycle<T>(out: map<T, set<T>>) {
    exists p :: IsCycle(out, p)
  }

  /** Every node of `core` has a predecessor inside `core`: what Kahn's
      algorithm leaves behind when it gets stuck. */
  ghost predicate SelfFed<T>(out: map<T, set<T>>, core: set<T>) {
    forall u {:trigger HasPredecessorIn(out, core, u)} :: u in core ==> HasPredecessorIn(out, core, u)
  }

  ghost predicate HasPredecessorIn<T>(out: map<T, set<T>>, core: set<T>, u: T) {
    exists p :: p in core && Edge(out, p, u)
  }

  ghost function IndexOf<T>(s: seq<T>, x: T): (i: nat)
    requires x in s
    ensures i < |s| && s[i] == x
  {
    if s[0] == x then 0 else 1 + IndexOf(s[1..], x)
  }

  /** Along a walk, positions in a topological order strictly increase. */
  lemma {:induction false} WalkClimbsOrder<T>(nodes: set<T>, out: map<T, set<T>>, order: seq<T>, p: seq<T>, k: nat)
    requires IsTopologicalOrder(nodes, out, order) && Closed(nodes, out)
    requires IsWalk(out, p) && 0 < k < |p|
    ensures p[0] in order && p[k] in order
    ensures IndexOf(order, p[0]) < IndexOf(order, p[k])
  {
    assert Edge(out, p[k - 1], p[k]);
    assert p[k - 1] in nodes && p[k] in nodes;
    var i := IndexOf(order, p[k - 1]);
    var j := IndexOf(order, p[k]);
    assert Edge(out, order[i], order[j]);
    if k > 1 {
      WalkClimbsOrder(nodes, out, order, p, k - 1);
    }
  }

  /** A graph with a topological order has no cycle. */
  lemma {:induction false} TopologicalOrderExcludesCycle<T>(nodes: set<T>, out: map<T, set<T>>, order: seq<T>)
    requires IsTopologicalOrder(nodes, out, order) && Closed(nodes, out)
    ensures !HasCycle(out)
  {
    if HasCycle(out) {
      var p :| IsCycle(out, p);
      WalkClimbsOrder(nodes, out, order, p, |p| - 1);
      assert false;
    }
  }

  /** Following predecessors from `start` for `n` steps without leaving `core`. */
  lemma {:induction false} WalkBack<T>(out: map<T, set<T>>, core: set<T>, n: nat, start: T) returns (w: seq<T>)
    requires SelfFed(out, core) && start in core
    ensures |w| == n + 1 && w[0] == start
    ensures forall k :: 0 <= k < |w| ==> w[k] in core
    ensures forall k :: 0 <= k < n ==> Edge(out, w[k + 1], w[k])
  {
    if n == 0 {
      w := [start];
    } else {
      var prev := WalkBack(out, core, n - 1, start);
      var last := prev[n - 1];
      assert HasPredecessorIn(out, core, last);
      var p :| p in core && Edge(out, p, last);
      w := prev + [p];
      assert w[..n] == prev && w[n] == p;
      forall k | 0 <= k < n
        ensures Edge(out, w[k + 1], w[k])
      {
        if k < n - 1 {
          assert w[k + 1] == prev[k + 1] && w[k] == prev[k];
        }
      }
    }
  }

  /** A sequence longer than the set it draws from repeats an element. */
  lemma {:induction false} Pigeonhole<T>(w: seq<T>, s: set<T>) returns (i: nat, j: nat)
    requires forall k :: 0 <= k < |w| ==> w[k] in s
    requires |w| > |s|
    ensures i < j < |w| && w[i] == w[j]
  {
    if w[0] in w[1..] {
      var k := IndexOf(w[1..], w[0]);
      i, j := 0, k + 1;
    } else {
      var i', j' := Pigeonhole(w[1..], s - {w[0]});
      i, j := i' + 1, j' + 1;
    }
  }

  /** A non-empty self-fed set of nodes lies on a cycle. */
  lemma {:induction false} SelfFedCoreHasCycle<T>(out: map<T, set<T>>, core: set<T>)
    requires core != {} && SelfFed(out, core)
    ensures HasCycle(out)
  {
    var start :| start in core;
    var w := WalkBack(out, core, |core|, start);
    var i, j := Pigeonhole(w, core);
    var p := seq(j - i + 1, m requires 0 <= m <= j - i => w[j - m]);
    forall m | 0 <= m < |p| - 1
      ensures Edge(out, p[m], p[m + 1])
    {
      assert p[m] == w[(j - m - 1) + 1] && p[m + 1] == w[j - m - 1];
    }
    forall k | 0 <= k < |p|
      ensures p[k] in out
    {
      assert Edge(out, p[if k < |p| - 1 then k else 0], p[if k < |p| - 1 then k + 1 else 1]);
    }
    assert IsCycle(out, p);
  }
}
