/** Tasks and processes of firepipe/process.py: every task owns one graph
    node that points back to it, and a process is a graph of such nodes
    built with `add`, `connect`, `fork` and `join`. */
module Processes {
  import opened Wrappers
  import opened Graphs

  type TaskName = string

  /** A named resource that limits how many tasks may run at once. */
  datatype Resource = Resource(name: string)

  /** How many units of each resource are held. */
  type Resources = map<Resource, int>

  /** The graph node of one task. Nodes are told apart by identity, so two
      tasks of the same name are still two nodes. The back-reference is
      `Task?` only because the task and its node are created one after
      the other; `Task.Valid` says it is set. */
  class TaskNode {
    var task: Task?

    constructor ()
      ensures task == null
    {
      task := null;
    }
  }

  /** A unit of work; what it executes is not part of this model. */
  class Task {
    const name: TaskName
    const node: TaskNode
    var resources: Resources

    /** The node points back to this task. */
    ghost predicate Valid()
      reads node
    {
      node.task == this
    }

    /** `Task(name)`: a fresh node pointing back to the new task, and no
        resources. */
    constructor (name: TaskName)
      ensures Valid()
      ensures this.name == name && fresh(node) && resources == map[]
    {
      this.name := name;
      node := new TaskNode();
      resources := map[];
      new;
      node.task := this;
    }
  }

  /** A set of tasks with dependencies. */
  class Process {
    const name: string
    const graph: Graph<TaskNode>
    var resources: Resources

    /** The graph is consistent and each of its nodes belongs to a task. */
    ghost predicate Valid()
      reads this, graph, graph.nodes
    {
      && graph.Valid()
      && forall n :: n in graph.nodes ==> n.task != null && n.task.node == n
    }

    /** `Process(name, resources)`: an empty graph; missing resources
        default to none. */
    constructor (name: string, resources: Option<Resources>)
      ensures Valid() && fresh(graph)
      ensures this.name == name && graph.nodes == {} && Edges(graph.State()) == {}
      ensures this.resources == if resources.Some? then resources.value else map[]
    {
      this.name := name;
      graph := new Graph();
      this.resources := if resources.Some? then resources.value else map[];
    }

    /** `add(task)`: the task's node joins the graph; a new node has no
        edges, and no edge changes. */
    method Add(task: Task)
      requires Valid() && task.Valid()
      modifies graph
      ensures Valid()
      ensures graph.State() == WithNode(old(graph.State()), task.node)
      ensures Edges(graph.State()) == Edges(old(graph.State()))
      ensures task.node !in old(graph.nodes) ==>
        graph.outgoing[task.node] == {} && graph.incoming[task.node] == {}
    {
      graph.AddNode(task.node);
    }

    /** `connect(upstream, downstream)`: exactly the edge between their
        nodes is added, and the nodes with it. */
    method Connect(upstream: Task, downstream: Task)
      requires Valid() && upstream.Valid() && downstream.Valid()
      modifies graph
      ensures Valid()
      ensures graph.State() == WithEdge(old(graph.State()), upstream.node, downstream.node)
      ensures Edges(graph.State()) == Edges(old(graph.State())) + {(upstream.node, downstream.node)}
    {
      graph.AddEdge(upstream.node, downstream.node);
    }

    /** `fork(upstream, downstreams)`: one `connect` per downstream task, in
        order. The edges added are exactly those from `upstream`, and
        `upstream` itself joins the graph only if there is a downstream. */
    method Fork(upstream: Task, downstreams: seq<Task>)
      requires Valid() && upstream.Valid()
      requires forall d :: d in downstreams ==> d.Valid()
      modifies graph
      ensures Valid()
      ensures graph.State() == WithEdges(old(graph.State()), OutFan(upstream.node, NodesOf(downstreams)))
      ensures Edges(graph.State()) ==
        Edges(old(graph.State())) + (set d | d in downstreams :: (upstream.node, d.node))
      ensures graph.nodes == old(graph.nodes) + (set d | d in downstreams :: d.node)
        + (if downstreams == [] then {} else {upstream.node})
    {
      ghost var g0 := graph.State();
      ghost var es := OutFan(upstream.node, NodesOf(downstreams));
      for i := 0 to |downstreams|
        invariant Valid()
        invariant graph.State() == WithEdges(g0, es[..i])
      {
        Connect(upstream, downstreams[i]);
        WithEdgesSnoc(g0, es, i);
      }
      assert es[..|downstreams|] == es;
      WithEdgesAddsEdges(g0, es);
      FanPairs(downstreams, es, true, upstream);
    }

    /** `join(upstreams, downstream)`: one `connect` per upstream task, in
        order. The edges added are exactly those into `downstream`, and
        `downstream` itself joins the graph only if there is an upstream. */
    method Join(upstreams: seq<Task>, downstream: Task)
      requires Valid() && downstream.Valid()
      requires forall u :: u in upstreams ==> u.Valid()
      modifies graph
      ensures Valid()
      ensures graph.State() == WithEdges(old(graph.State()), InFan(NodesOf(upstreams), downstream.node))
      ensures Edges(graph.State()) ==
        Edges(old(graph.State())) + (set u | u in upstreams :: (u.node, downstream.node))
      ensures graph.nodes == old(graph.nodes) + (set u | u in upstreams :: u.node)
        + (if upstreams == [] then {} else {downstream.node})
    {
      ghost var g0 := graph.State();
      ghost var es := InFan(NodesOf(upstreams), downstream.node);
      for i := 0 to |upstreams|
        invariant Valid()
        invariant graph.State() == WithEdges(g0, es[..i])
      {
        Connect(upstreams[i], downstream);
        WithEdgesSnoc(g0, es, i);
      }
      assert es[..|upstreams|] == es;
      WithEdgesAddsEdges(g0, es);
      FanPairs(upstreams, es, false, downstream);
    }
  }

  /** The nodes of some tasks, in order. */
  function NodesOf(ts: seq<Task>): (ns: seq<TaskNode>)
    ensures |ns| == |ts| && forall i :: 0 <= i < |ts| ==> ns[i] == ts[i].node
  {
    seq(|ts|, i requires 0 <= i < |ts| => ts[i].node)
  }

  /** The pairs of a fan from (`out`) or into (`!out`) `hub`, as a set, and
      the nodes they touch. */
  lemma {:induction false} FanPairs(ts: seq<Task>, es: seq<(TaskNode, TaskNode)>, out: bool, hub: Task)
    requires es == if out then OutFan(hub.node, NodesOf(ts)) else InFan(NodesOf(ts), hub.node)
    ensures (set e | e in es) ==
      if out then (set t | t in ts :: (hub.node, t.node)) else (set t | t in ts :: (t.node, hub.node))
    ensures Endpoints(set e | e in es) ==
      (set t | t in ts :: t.node) + (if ts == [] then {} else {hub.node})
  {
    var pairs := if out then (set t | t in ts :: (hub.node, t.node)) else (set t | t in ts :: (t.node, hub.node));
    forall e | e in es
      ensures e in pairs
    {
      var i :| 0 <= i < |es| && es[i] == e;
      assert ts[i] in ts;
    }
    forall e | e in pairs
      ensures e in es
    {
      var t :| t in ts && e == (if out then (hub.node, t.node) else (t.node, hub.node));
      var i :| 0 <= i < |ts| && ts[i] == t;
      assert es[i] == e;
    }
    if ts != [] {
      assert es[0] in es;
    }
  }
}
