/**
  The naive active-component finder of POC/FindActivePaths.py: for one time step, read the
  active set off a column of the 0/1 activity matrix, then repeatedly pick an active node that
  has not been explored, run a breadth-first search from it over the original graph through
  active nodes only, and emit what the search visited as one component.
*/
module FindActivePaths {
  import opened Wrappers
  import opened Graphs

  /** Number of time steps the script processes (POC/FindActivePaths.py:36). */
  const TS: nat := 100

  /** The rows of column t that hold a 1: the nodes active at step t. */
  ghost function ActiveColumn(M: array2<int>, t: nat): (s: set<Node>)
    reads M
    requires t < M.Length1
  {
    set i | 0 <= i < M.Length0 && M[i, t] == 1
  }

  /**
    getActiveNodesList: walk down column t with a node counter and collect every row whose
    entry is 1 (the source stores node i as the string str(i); here it is the integer i).
  */
  method ActiveNodesList(M: array2<int>, t: nat) returns (active: set<Node>)
    requires t < M.Length1
    ensures forall i :: i in active <==> 0 <= i < M.Length0 && M[i, t] == 1
    ensures active == ActiveColumn(M, t)
  {
    active := {};
    var nodeNumber := 0;
    while nodeNumber < M.Length0
      invariant 0 <= nodeNumber <= M.Length0
      invariant forall i :: i in active <==> 0 <= i < nodeNumber && M[i, t] == 1
    {
      if M[nodeNumber, t] == 1 {
        active := active + {nodeNumber};
      }
      nodeNumber := nodeNumber + 1;
    }
  }

  /** No node occurs twice in the order of enqueueing. */
  ghost predicate Distinct(order: seq<Node>) {
    forall a, b :: 0 <= a < b < |order| ==> order[a] != order[b]
  }

  /** Every visited node has a witness path from the pivot through visited nodes. */
  ghost predicate Tracked(G: Graph, visited: set<Node>, pivot: Node, paths: map<Node, seq<Node>>) {
    forall x :: x in visited ==>
      x in paths && IsPath(G, visited, paths[x]) && paths[x][0] == pivot && paths[x][|paths[x]| - 1] == x
  }

  /** The queue is the not yet dequeued end of the order of enqueueing. */
  ghost predicate QueueTail(queue: seq<Node>, order: seq<Node>) {
    |queue| <= |order| && queue == order[|order| - |queue|..]
  }

  /**
    One breadth-first search of the outer loop of generateActivePaths, started at pivot over
    the still-unexplored active nodes R0.  A dequeued node is removed from the active set, as
    activeNodesList.remove does; the search returns what it visited and the active set left.
    Asking the graph for the neighbours of a node it does not hold fails, as networkx does.
  */
  method Explore(G: Graph, R0: set<Node>, pivot: Node) returns (r: Result<(set<Node>, set<Node>)>)
    requires WellFormed(G) && pivot in R0
    ensures r.Ok? ==> var (visited, remaining) := r.value;
      && pivot in visited && visited <= R0 && visited <= G.Keys
      && Closed(G, R0, visited)
      && (forall x :: x in visited ==> ReachIn(G, visited, pivot, x))
      && remaining == R0 - visited
    ensures r.Err? ==> r.error.UnknownNode? && r.error.node in R0 && r.error.node !in G
  {
    var activeNodes := R0;
    var queue := [pivot];
    var visited := {pivot};
    // every node ever enqueued, in order: the queue is always a suffix of it
    ghost var order := [pivot];
    // the dequeued nodes
    ghost var done: set<Node> := {};
    // a witness path from the pivot for every visited node
    ghost var paths: map<Node, seq<Node>> := map[pivot := [pivot]];
    assert IsPath(G, visited, [pivot]);
    while |queue| > 0
      invariant ExploredSoFar(G, R0, pivot, activeNodes, queue, visited, order, done, paths)
      decreases activeNodes
    {
      var currentNode := queue[0];
      ExploredKnown(G, R0, pivot, activeNodes, queue, visited, order, done, paths);
      if currentNode !in G {
        return Err(UnknownNode(currentNode));
      }
      ghost var order0 := order;
      ghost var queue0 := queue;
      queue, visited, order, paths := VisitNeighbours(G, R0, activeNodes, pivot, currentNode, queue, visited, order, paths);
      ExploredAdvance(G, R0, pivot, activeNodes, queue0, order0, done, queue, visited, order, paths);
      activeNodes := activeNodes - {currentNode};
      done := done + {currentNode};
      queue := queue[1..];
    }
    ExploredDone(G, R0, pivot, activeNodes, visited, order, done, paths);
    return Ok((visited, activeNodes));
  }

  /**
    The outer loop's invariant of one search: order lists every node ever enqueued, the queue
    is its not yet dequeued end, the dequeued nodes are the rest of it and are no longer
    active, their active neighbours are all visited, and every visited node is reachable.
  */
  ghost predicate ExploredSoFar(G: Graph, R0: set<Node>, pivot: Node, activeNodes: set<Node>, queue: seq<Node>,
                                visited: set<Node>, order: seq<Node>, done: set<Node>, paths: map<Node, seq<Node>>)
  {
    && visited <= R0 && pivot in visited
    && Distinct(order)
    && (forall z :: z in visited <==> z in order)
    && QueueTail(queue, order)
    && (forall z :: z in done <==> z in order[..|order| - |queue|])
    && activeNodes == R0 - done
    && done <= G.Keys
    && (forall x, y :: x in done && x in G && y in G[x] && y in R0 ==> y in visited)
    && Tracked(G, visited, pivot, paths)
  }

  /** The node at the head of the queue is visited and still active. */
  lemma {:induction false} ExploredKnown(G: Graph, R0: set<Node>, pivot: Node, activeNodes: set<Node>, queue: seq<Node>,
                                       visited: set<Node>, order: seq<Node>, done: set<Node>, paths: map<Node, seq<Node>>)
    requires ExploredSoFar(G, R0, pivot, activeNodes, queue, visited, order, done, paths) && |queue| > 0
    ensures queue[0] in visited && queue[0] in activeNodes && queue[0] in R0
  {
    var before := |order| - |queue|;
    assert queue[0] == order[before];
    assert queue[0] !in order[..before] by {
      forall k | 0 <= k < before
        ensures order[..before][k] != queue[0]
      {
        assert order[k] != order[before];
      }
    }
  }

  /** Dequeueing a node after visiting all its neighbours keeps the invariant. */
  lemma {:induction false} ExploredAdvance(G: Graph, R0: set<Node>, pivot: Node, activeNodes: set<Node>,
                                         queue0: seq<Node>, order0: seq<Node>, done: set<Node>,
                                         queue: seq<Node>, visited: set<Node>, order: seq<Node>, paths: map<Node, seq<Node>>)
    requires |queue0| > 0 && queue0[0] in G
    requires visited <= R0 && pivot in visited && done <= G.Keys && activeNodes == R0 - done
    requires Distinct(order0) && QueueTail(queue0, order0)
    requires forall z :: z in done <==> z in order0[..|order0| - |queue0|]
    requires forall x, y :: x in done && x in G && y in G[x] && y in R0 ==> y in visited
    requires Distinct(order) && (forall z :: z in visited <==> z in order)
    requires |order0| <= |order| && order[..|order0|] == order0
    requires QueueTail(queue, order) && |order| - |queue| == |order0| - |queue0|
    requires |queue| > 0 && queue[0] == queue0[0]
    requires forall y :: y in G[queue0[0]] && y in activeNodes ==> y in visited
    requires Tracked(G, visited, pivot, paths)
    ensures queue0[0] in activeNodes
    ensures ExploredSoFar(G, R0, pivot, activeNodes - {queue0[0]}, queue[1..], visited, order, done + {queue0[0]}, paths)
  {
    var x := queue0[0];
    var before := |order0| - |queue0|;
    assert x == order0[before];
    assert order[..before] == order0[..before];
    assert x !in order0[..before] by {
      forall k | 0 <= k < before
        ensures order0[..before][k] != x
      {
        assert order0[k] != order0[before];
      }
    }
    assert order[..before + 1] == order[..before] + [x];
    assert queue[1..] == order[before + 1..];
  }

  /** With the queue empty, the visited nodes are exactly the dequeued ones. */
  lemma {:induction false} ExploredDone(G: Graph, R0: set<Node>, pivot: Node, activeNodes: set<Node>,
                                      visited: set<Node>, order: seq<Node>, done: set<Node>, paths: map<Node, seq<Node>>)
    requires ExploredSoFar(G, R0, pivot, activeNodes, [], visited, order, done, paths)
    ensures pivot in visited && visited <= R0 && visited <= G.Keys
    ensures Closed(G, R0, visited)
    ensures forall x :: x in visited ==> ReachIn(G, visited, pivot, x)
    ensures activeNodes == R0 - visited
  {
    assert order[..|order|] == order;
    assert forall z :: z in visited <==> z in done;
    assert visited == done;
    forall x | x in visited
      ensures ReachIn(G, visited, pivot, x)
    {
      assert IsPath(G, visited, paths[x]);
    }
  }

  /**
    The inner loop of one search: for each neighbour of the dequeued node that is still active
    and not yet visited, mark it and enqueue it.
  */
  method VisitNeighbours(G: Graph, R0: set<Node>, activeNodes: set<Node>, pivot: Node, currentNode: Node,
                         queue0: seq<Node>, visited0: set<Node>, ghost order0: seq<Node>, ghost paths0: map<Node, seq<Node>>)
    returns (queue: seq<Node>, visited: set<Node>, ghost order: seq<Node>, ghost paths: map<Node, seq<Node>>)
    requires currentNode in G && currentNode in visited0 && visited0 <= R0 && activeNodes <= R0
    requires Distinct(order0) && (forall z :: z in visited0 <==> z in order0)
    requires QueueTail(queue0, order0) && |queue0| > 0 && queue0[0] == currentNode
    requires Tracked(G, visited0, pivot, paths0)
    ensures visited0 <= visited <= R0
    ensures Distinct(order) && (forall z :: z in visited <==> z in order)
    ensures |order0| <= |order| && order[..|order0|] == order0
    ensures QueueTail(queue, order) && |order| - |queue| == |order0| - |queue0|
    ensures |queue| > 0 && queue[0] == currentNode
    ensures forall y :: y in G[currentNode] && y in activeNodes ==> y in visited
    ensures Tracked(G, visited, pivot, paths)
  {
    queue, visited, order, paths := queue0, visited0, order0, paths0;
    var neighbours := G[currentNode];
    for i := 0 to |neighbours|
      invariant VisitedSoFar(G, R0, activeNodes, pivot, currentNode, queue0, visited0, order0,
                             i, queue, visited, order, paths)
    {
      var neighbour := neighbours[i];
      if neighbour in activeNodes && neighbour !in visited {
        // first time seen: enqueue and mark, so that it is never enqueued again
        VisitEnqueue(G, R0, activeNodes, pivot, currentNode, queue0, visited0, order0,
                     i, queue, visited, order, paths);
        queue := queue + [neighbour];
        order := order + [neighbour];
        visited := visited + {neighbour};
        paths := paths[neighbour := paths[currentNode] + [neighbour]];
      } else {
        VisitSkip(G, R0, activeNodes, pivot, currentNode, queue0, visited0, order0,
                  i, queue, visited, order, paths);
      }
    }
  }

  /** The invariant of the inner loop after the first i neighbours of currentNode. */
  ghost predicate VisitedSoFar(G: Graph, R0: set<Node>, activeNodes: set<Node>, pivot: Node, currentNode: Node,
                               queue0: seq<Node>, visited0: set<Node>, order0: seq<Node>,
                               i: int, queue: seq<Node>, visited: set<Node>, order: seq<Node>, paths: map<Node, seq<Node>>)
  {
    && currentNode in G && 0 <= i <= |G[currentNode]| && activeNodes <= R0
    && visited0 <= visited <= R0
    && Distinct(order) && (forall z :: z in visited <==> z in order)
    && |order0| <= |order| && order[..|order0|] == order0
    && QueueTail(queue, order) && |order| - |queue| == |order0| - |queue0|
    && |queue| > 0 && queue[0] == currentNode
    && (forall k :: 0 <= k < i && G[currentNode][k] in activeNodes ==> G[currentNode][k] in visited)
    && Tracked(G, visited, pivot, paths)
  }

  /** Enqueueing a still active, unvisited neighbour keeps the inner invariant. */
  lemma {:induction false} VisitEnqueue(G: Graph, R0: set<Node>, activeNodes: set<Node>, pivot: Node, currentNode: Node,
                                      queue0: seq<Node>, visited0: set<Node>, order0: seq<Node>,
                                      i: int, queue: seq<Node>, visited: set<Node>, order: seq<Node>, paths: map<Node, seq<Node>>)
    requires VisitedSoFar(G, R0, activeNodes, pivot, currentNode, queue0, visited0, order0, i, queue, visited, order, paths)
    requires currentNode in visited && i < |G[currentNode]|
    requires G[currentNode][i] in activeNodes && G[currentNode][i] !in visited
    ensures var y := G[currentNode][i];
      VisitedSoFar(G, R0, activeNodes, pivot, currentNode, queue0, visited0, order0, i + 1,
                   queue + [y], visited + {y}, order + [y], paths[y := paths[currentNode] + [y]])
  {
    var y := G[currentNode][i];
    TrackedExtend(G, visited, pivot, paths, currentNode, y);
    assert (order + [y])[..|order0|] == order[..|order0|];
    assert (order + [y])[|order + [y]| - |queue + [y]|..] == order[|order| - |queue|..] + [y];
  }

  /** Passing over an inactive or already visited neighbour keeps the inner invariant. */
  lemma {:induction false} VisitSkip(G: Graph, R0: set<Node>, activeNodes: set<Node>, pivot: Node, currentNode: Node,
                                   queue0: seq<Node>, visited0: set<Node>, order0: seq<Node>,
                                   i: int, queue: seq<Node>, visited: set<Node>, order: seq<Node>, paths: map<Node, seq<Node>>)
    requires VisitedSoFar(G, R0, activeNodes, pivot, currentNode, queue0, visited0, order0, i, queue, visited, order, paths)
    requires i < |G[currentNode]| && (G[currentNode][i] !in activeNodes || G[currentNode][i] in visited)
    ensures VisitedSoFar(G, R0, activeNodes, pivot, currentNode, queue0, visited0, order0, i + 1, queue, visited, order, paths)
  {
  }

  /** Visiting a neighbour of a tracked node extends the tracked paths by one. */
  lemma {:induction false} TrackedExtend(G: Graph, visited: set<Node>, pivot: Node, paths: map<Node, seq<Node>>,
                                       currentNode: Node, neighbour: Node)
    requires Tracked(G, visited, pivot, paths) && currentNode in visited
    requires currentNode in G && neighbour in G[currentNode]
    ensures Tracked(G, visited + {neighbour}, pivot, paths[neighbour := paths[currentNode] + [neighbour]])
  {
    var p := paths[currentNode];
    PathWiden(G, visited, visited + {neighbour}, p);
    PathExtend(G, visited + {neighbour}, p, neighbour);
    forall x | x in visited
      ensures IsPath(G, visited + {neighbour}, paths[x])
    {
      PathWiden(G, visited, visited + {neighbour}, paths[x]);
    }
  }

  /**
    The body of generateActivePaths for one step, without the timing and the file writes:
    the components of the subgraph induced by the active set A.  The pivot of each search is
    an arbitrary unexplored active node (the source draws it with random.sample).
  */
  method FindActiveComponents(G: Graph, A: set<Node>) returns (r: Result<seq<set<Node>>>)
    requires WellFormed(G)
    ensures r.Err? <==> !(A <= G.Keys)
    ensures r.Err? ==> r.error.UnknownNode? && r.error.node in A && r.error.node !in G
    ensures r.Ok? ==> IsComponentList(G, A, r.value)
    ensures A == {} ==> r == Ok([])
  {
    var activeNodesList := A;
    var components: seq<set<Node>> := [];
    while activeNodesList != {}
      invariant activeNodesList <= A
      invariant Progress(G, A, activeNodesList, components)
      invariant A == {} ==> components == []
      decreases activeNodesList
    {
      ghost var someActive := PickOne(activeNodesList);
      var pivot :| pivot in activeNodesList;
      var explored := Explore(G, activeNodesList, pivot);
      if explored.Err? {
        return Err(explored.error);
      }
      var (visitedNodes, remaining) := explored.value;
      ProgressStep(G, A, activeNodesList, pivot, visitedNodes, components);
      components := components + [visitedNodes];
      activeNodesList := remaining;
    }
    assert A - activeNodesList == A;
    return Ok(components);
  }

  /**
    The outer loop's invariant: the explored nodes A - R are keys of the graph and are covered
    by the components found so far, which are pairwise disjoint components of A.
  */
  ghost predicate Progress(G: Graph, A: set<Node>, R: set<Node>, cs: seq<set<Node>>) {
    && A - R <= G.Keys
    && (forall i :: 0 <= i < |cs| ==> IsComponent(G, A, cs[i]) && cs[i] <= A - R)
    && (forall i, j :: 0 <= i < j < |cs| ==> cs[i] !! cs[j])
    && (forall x :: x in A - R ==> exists i :: 0 <= i < |cs| && x in cs[i])
  }

  /** One finished search adds one more component and keeps the invariant. */
  lemma {:induction false} ProgressStep(G: Graph, A: set<Node>, R: set<Node>, pivot: Node, V: set<Node>, cs: seq<set<Node>>)
    requires WellFormed(G) && R <= A && Progress(G, A, R, cs)
    requires pivot in V && V <= R && V <= G.Keys && Closed(G, R, V)
    requires forall x :: x in V ==> ReachIn(G, V, pivot, x)
    ensures Progress(G, A, R - V, cs + [V])
  {
    assert IsComponent(G, A, V) by {
      ClosedAgainstEarlier(G, A, R, V, cs);
      RootedConnected(G, V, pivot);
    }
    var cs' := cs + [V];
    assert forall i :: 0 <= i < |cs'| ==> IsComponent(G, A, cs'[i]) && cs'[i] <= A - (R - V) by {
      forall i | 0 <= i < |cs'|
        ensures IsComponent(G, A, cs'[i]) && cs'[i] <= A - (R - V)
      {
        if i < |cs| {
          assert cs'[i] == cs[i];
        }
      }
    }
    assert forall i, j :: 0 <= i < j < |cs'| ==> cs'[i] !! cs'[j] by {
      forall i, j | 0 <= i < j < |cs'|
        ensures cs'[i] !! cs'[j]
      {
        assert cs'[i] == cs[i];
        if j < |cs| {
          assert cs'[j] == cs[j];
        }
      }
    }
    ProgressCover(A, R, V, cs);
  }

  /** After a search, every explored node lies in one of the components, the new one included. */
  lemma {:induction false} ProgressCover(A: set<Node>, R: set<Node>, V: set<Node>, cs: seq<set<Node>>)
    requires forall x :: x in A - R ==> exists i :: 0 <= i < |cs| && x in cs[i]
    ensures forall x :: x in A - (R - V) ==> exists i :: 0 <= i < |cs + [V]| && x in (cs + [V])[i]
  {
    var cs' := cs + [V];
    forall x | x in A - (R - V)
      ensures exists i :: 0 <= i < |cs'| && x in cs'[i]
    {
      if x in V {
        assert x in cs'[|cs|];
      } else {
        assert x in A - R;
        var i :| 0 <= i < |cs| && x in cs[i];
        assert x in cs'[i];
      }
    }
  }

  /** A neighbour inside a closed set pulls the node itself in, by symmetry of the graph. */
  lemma {:induction false} SymmetricClosure(G: Graph, A: set<Node>, C: set<Node>, x: Node, y: Node)
    requires WellFormed(G) && Closed(G, A, C)
    requires y in C && x in A && x in G && y in G[x]
    ensures x in C
  {
    assert y in G && x in G[y];
  }

  /**
    A search closed under the unexplored active nodes R is closed under all of A: a neighbour
    in an earlier component would, by symmetry, have pulled the searched node into it.
  */
  lemma {:induction false} ClosedAgainstEarlier(G: Graph, A: set<Node>, R: set<Node>, V: set<Node>, cs: seq<set<Node>>)
    requires WellFormed(G) && R <= A && V <= R && Closed(G, R, V)
    requires forall i :: 0 <= i < |cs| ==> IsComponent(G, A, cs[i]) && cs[i] <= A - R
    requires forall x :: x in A - R ==> exists i :: 0 <= i < |cs| && x in cs[i]
    ensures Closed(G, A, V)
  {
    forall x, y | x in V && x in G && y in G[x] && y in A
      ensures y in V
    {
      if y !in R {
        assert y in A - R;
        var i :| 0 <= i < |cs| && y in cs[i];
        SymmetricClosure(G, A, cs[i], x, y);
        assert false;
      }
    }
  }

  /**
    generateActivePaths over the first ts columns of the activity matrix: one component list
    per step.  An unknown node aborts the whole run, as the uncaught networkx error does.
  */
  method GenerateActivePaths(G: Graph, M: array2<int>, ts: nat) returns (r: Result<seq<seq<set<Node>>>>)
    requires WellFormed(G) && ts <= M.Length1
    ensures r.Ok? <==> forall t :: 0 <= t < ts ==> ActiveColumn(M, t) <= G.Keys
    ensures r.Ok? ==> |r.value| == ts
    ensures r.Ok? ==> forall t :: 0 <= t < ts ==> IsComponentList(G, ActiveColumn(M, t), r.value[t])
  {
    var steps: seq<seq<set<Node>>> := [];
    for t := 0 to ts
      invariant StepsSoFar(G, M, t, steps)
    {
      var activeNodesList := ActiveNodesList(M, t);
      var found := FindActiveComponents(G, activeNodesList);
      if found.Err? {
        assert !(ActiveColumn(M, t) <= G.Keys);
        return Err(found.error);
      }
      StepsAdvance(G, M, t, steps, found.value);
      steps := steps + [found.value];
    }
    return Ok(steps);
  }

  /** The outer loop's invariant: one component list per step read so far. */
  ghost predicate StepsSoFar(G: Graph, M: array2<int>, t: int, steps: seq<seq<set<Node>>>)
    reads M
  {
    && 0 <= t <= M.Length1 && |steps| == t
    && (forall u :: 0 <= u < t ==> ActiveColumn(M, u) <= G.Keys)
    && (forall u :: 0 <= u < t ==> IsComponentList(G, ActiveColumn(M, u), steps[u]))
  }

  /** The components of one more column keep the invariant. */
  lemma {:induction false} StepsAdvance(G: Graph, M: array2<int>, t: int, steps: seq<seq<set<Node>>>, cs: seq<set<Node>>)
    requires StepsSoFar(G, M, t, steps) && t < M.Length1
    requires ActiveColumn(M, t) <= G.Keys && IsComponentList(G, ActiveColumn(M, t), cs)
    ensures StepsSoFar(G, M, t + 1, steps + [cs])
  {
    forall u | 0 <= u < t + 1
      ensures IsComponentList(G, ActiveColumn(M, u), (steps + [cs])[u])
    {
      if u < t {
        assert (steps + [cs])[u] == steps[u];
      }
    }
  }
}
