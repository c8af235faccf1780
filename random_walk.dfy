/**
  The random walks the synthetic-data generators lay over the graph.  Every variant keeps the
  same locals (a stack, the visited nodes, the walk so far, the current node) and draws a
  neighbour, redrawing after removing it from the candidate list while it is already
  visited.  They differ in what happens at a dead end:

  - POC/RandomWalksGenerator.py and POC/BaselineApp3.py stop the walk;
  - POC/BaselineApp2.py, POC/BaselineApp.py, POC/previous-versions/BaselineApp.py and
    util/naive3.0.py backtrack with `currentRandomNode = stack.pop()`.

  The random module is replaced by two oracles: coins, the successive outcomes of the
  continue-or-stop test (generateProbability(), or random.uniform(0, 1) <= alpha), read as
  False once exhausted; and choose, whose value at the d-th draw of the walk, taken modulo the
  length of the candidate list, is the index random.choice returns.

  Each loop is proved equal to a step-by-step definition of the walk (WalkStop, WalkBacktrack),
  and the walks' properties are proved about those definitions.
*/
module RandomWalks {
  import opened Wrappers
  import opened Graphs

  /** G.neighbors(v); every node a walk reaches is a node of G, so the empty case is never used. */
  function Neighbors(G: Graph, v: Node): seq<Node> {
    if v in G then G[v] else []
  }

  predicate Distinct(p: seq<Node>) {
    forall i, j :: 0 <= i < j < |p| ==> p[i] != p[j]
  }

  /** list.remove(x): drop the first occurrence of x. */
  function RemoveFirst(s: seq<Node>, x: Node): (r: seq<Node>)
    requires x in s
    ensures |r| == |s| - 1
    ensures multiset(r) == multiset(s) - multiset{x}
    ensures forall v :: v in r ==> v in s
    ensures forall v :: v in s && v != x ==> v in r
  {
    if s[0] == x then
      assert s == [s[0]] + s[1..];
      s[1..]
    else
      assert s == [s[0]] + s[1..];
      [s[0]] + RemoveFirst(s[1..], x)
  }

  /**
    The inner `while randomNeighbor in visitedNodes` loop, from a candidate cand already drawn
    from list with d draws made so far: a visited candidate is removed and another drawn, until
    an unvisited one is found (Some) or the list runs out (None).  Also returns the number of
    draws made by then.
  */
  function PickFrom(list: seq<Node>, cand: Node, visited: set<Node>, choose: nat -> nat, d: nat): (r: (Option<Node>, nat))
    requires cand in list
    ensures r.1 >= d
    ensures r.0.Some? ==> r.0.value in list && r.0.value !in visited
    ensures r.0.None? ==> forall v :: v in list ==> v in visited
    decreases |list|
  {
    if cand !in visited then (Some(cand), d)
    else
      var rest := RemoveFirst(list, cand);
      if |rest| == 0 then (None, d)
      else PickFrom(rest, rest[choose(d) % |rest|], visited, choose, d + 1)
  }

  /** randomNeighbor = choice(neighbors) followed by the inner loop. */
  function Pick(list: seq<Node>, visited: set<Node>, choose: nat -> nat, d: nat): (r: (Option<Node>, nat))
    requires |list| > 0
    ensures r.1 > d
    ensures r.0.Some? ==> r.0.value in list && r.0.value !in visited
    ensures r.0.None? ==> forall v :: v in list ==> v in visited
  {
    PickFrom(list, list[choose(d) % |list|], visited, choose, d + 1)
  }

  // ---------------------------------------------------------------- walk state

  /**
    The locals of randomWalk: the current node, the stack, the visited nodes (visitedNodes), the
    walk so far (result_randomWalk or finalPath), and the number of random.choice draws made.
  */
  datatype Walk = Walk(current: Node, stack: seq<Node>, visited: set<Node>, path: seq<Node>, draws: nat)

  /** The state before the loop: the start is pushed, visited and recorded. */
  function Begin(start: Node): Walk {
    Walk(start, [start], {start}, [start], 0)
  }

  /** Moving to the unvisited neighbour v. */
  function Extend(s: Walk, v: Node, d: nat): Walk {
    Walk(v, s.stack + [v], s.visited + {v}, s.path + [v], d)
  }

  /** Every neighbour of the current node has been visited, and there is at least one. */
  predicate DeadEnd(G: Graph, s: Walk) {
    |Neighbors(G, s.current)| > 0 && forall u :: u in Neighbors(G, s.current) ==> u in s.visited
  }

  // ---------------------------------------------------------------- the stopping walk

  /**
    The loop `while len(stack) > 0 and generateProbability()` of the stopping variant, from
    state s with the remaining coin outcomes: a node without neighbours leaves the state as it
    is; an unvisited neighbour is moved to; a dead end breaks out of the loop.  Returns the
    final state and the number of loop bodies entered.
  */
  function WalkStop(G: Graph, coins: seq<bool>, choose: nat -> nat, s: Walk): (r: (Walk, nat))
    ensures r.1 <= |coins| && forall i :: 0 <= i < r.1 ==> coins[i]
    ensures s.path <= r.0.path
    decreases |coins|
  {
    if |s.stack| == 0 || |coins| == 0 || !coins[0] then (s, 0)
    else
      var nbs := Neighbors(G, s.current);
      if |nbs| == 0 then
        var (f, n) := WalkStop(G, coins[1..], choose, s);
        (f, n + 1)
      else
        match Pick(nbs, s.visited, choose, s.draws)
        case (Some(v), d) =>
          var (f, n) := WalkStop(G, coins[1..], choose, Extend(s, v, d));
          (f, n + 1)
        case (None, d) => (s.(draws := d), 1)
  }

  /**
    randomWalk of POC/RandomWalksGenerator.py and POC/BaselineApp3.py from start (the source
    draws it from the graph's nodes).  x counts the finished loop bodies, which is also the
    number of coins drawn so far.
  */
  method RandomWalkStop(G: Graph, start: Node, coins: seq<bool>, choose: nat -> nat) returns (result: seq<Node>)
    ensures result == WalkStop(G, coins, choose, Begin(start)).0.path
  {
    var stack := [start];
    var visitedNodes := {start};
    var resultRandomWalk := [start];
    var currentRandomNode := start;
    var x := 0;
    var d := 0;
    while |stack| > 0 && x < |coins| && coins[x]
      invariant x <= |coins|
      invariant WalkStop(G, coins[x..], choose, Walk(currentRandomNode, stack, visitedNodes, resultRandomWalk, d)).0
             == WalkStop(G, coins, choose, Begin(start)).0
      decreases |coins| - x
    {
      ghost var s0 := Walk(currentRandomNode, stack, visitedNodes, resultRandomWalk, d);
      assert coins[x..][0] == coins[x] && coins[x..][1..] == coins[x + 1..];
      var neighbors := Neighbors(G, currentRandomNode);
      if |neighbors| > 0 {
        ghost var picked := Pick(neighbors, visitedNodes, choose, d);
        var randomNeighbor := neighbors[choose(d) % |neighbors|];
        d := d + 1;
        while randomNeighbor in visitedNodes
          invariant |neighbors| > 0 && randomNeighbor in neighbors
          invariant PickFrom(neighbors, randomNeighbor, visitedNodes, choose, d) == picked
          decreases |neighbors|
        {
          neighbors := RemoveFirst(neighbors, randomNeighbor);
          if |neighbors| > 0 {
            randomNeighbor := neighbors[choose(d) % |neighbors|];
            d := d + 1;
          } else {
            assert picked == (None, d);
            break;
          }
        }
        if |neighbors| > 0 {
          assert picked == (Some(randomNeighbor), d);
          visitedNodes := visitedNodes + {randomNeighbor};
          stack := stack + [randomNeighbor];
          currentRandomNode := randomNeighbor;
          resultRandomWalk := resultRandomWalk + [randomNeighbor];
        } else {
          assert WalkStop(G, coins[x..], choose, s0).0.path == resultRandomWalk;
          break;
        }
      }
      x := x + 1;
    }
    return resultRandomWalk;
  }

  /**
    The stopping walk is a path: it starts at the start, its stack is the walk itself, the
    current node is its last node, consecutive nodes are adjacent, nodes are distinct and are
    exactly the visited ones.
  */
  ghost predicate StopInv(G: Graph, start: Node, s: Walk) {
    && |s.path| > 0 && s.path[0] == start
    && s.stack == s.path && s.current == s.path[|s.path| - 1] && s.current in G
    && IsPath(G, s.visited, s.path)
    && (forall v :: v in s.visited ==> v in s.path)
    && Distinct(s.path)
  }

  lemma {:induction false} StopExtend(G: Graph, start: Node, s: Walk, v: Node, d: nat)
    requires WellFormed(G) && StopInv(G, start, s)
    requires v in Neighbors(G, s.current) && v !in s.visited
    ensures StopInv(G, start, Extend(s, v, d))
  {
    PathWiden(G, s.visited, s.visited + {v}, s.path);
    PathExtend(G, s.visited + {v}, s.path, v);
    var p := s.path + [v];
    forall i, j | 0 <= i < j < |p|
      ensures p[i] != p[j]
    {
      if j == |p| - 1 {
        assert p[i] == s.path[i] && p[i] in s.visited;
      }
    }
  }

  /**
    What the stopping loop ends with: the invariant still holds, every coin drawn came up True,
    and it stopped either because the next coin is False or missing, or at a dead end.
  */
  lemma {:induction false} StopFacts(G: Graph, coins: seq<bool>, choose: nat -> nat, s: Walk, start: Node)
    requires WellFormed(G) && StopInv(G, start, s)
    ensures var (f, n) := WalkStop(G, coins, choose, s);
      && StopInv(G, start, f)
      && n <= |coins| && (forall i :: 0 <= i < n ==> coins[i])
      && (n < |coins| && coins[n] ==> DeadEnd(G, f))
    decreases |coins|
  {
    if |coins| > 0 && coins[0] {
      var nbs := Neighbors(G, s.current);
      if |nbs| == 0 {
        StopFacts(G, coins[1..], choose, s, start);
      } else {
        match Pick(nbs, s.visited, choose, s.draws)
        case (Some(v), d) =>
          StopExtend(G, start, s, v, d);
          StopFacts(G, coins[1..], choose, Extend(s, v, d), start);
        case (None, d) =>
      }
    }
  }

  /**
    The walk randomWalk returns is a simple path of G from the start: consecutive nodes are
    adjacent and no node appears twice.
  */
  lemma {:induction false} RandomWalkStopIsSimplePath(G: Graph, start: Node, coins: seq<bool>, choose: nat -> nat)
    requires WellFormed(G) && start in G
    ensures var w := WalkStop(G, coins, choose, Begin(start)).0.path;
      && |w| > 0 && w[0] == start && Distinct(w)
      && (forall i :: 0 <= i < |w| ==> w[i] in G)
      && (forall i :: 0 <= i < |w| - 1 ==> w[i + 1] in G[w[i]])
  {
    assert IsPath(G, {start}, [start]);
    StopFacts(G, coins, choose, Begin(start), start);
    var f := WalkStop(G, coins, choose, Begin(start)).0;
    assert f.path[|f.path| - 1] in G;
  }

  /**
    The stopping walk ends at the first False (or missing) coin or at a dead end, whichever
    comes first.
  */
  lemma {:induction false} RandomWalkStopEnds(G: Graph, start: Node, coins: seq<bool>, choose: nat -> nat)
    requires WellFormed(G) && start in G
    ensures var (f, n) := WalkStop(G, coins, choose, Begin(start));
      && n <= |coins| && (forall i :: 0 <= i < n ==> coins[i])
      && (n < |coins| && coins[n] ==> DeadEnd(G, f))
      && |f.path| > 0 && f.path[|f.path| - 1] == f.current
  {
    assert IsPath(G, {start}, [start]);
    StopFacts(G, coins, choose, Begin(start), start);
  }

  // ---------------------------------------------------------------- the backtracking walk

  /**
    What a dead end does to the stack.  PopIntoCurrent is `currentRandomNode = stack.pop()`,
    as the backtracking files write it; PopThenPeek pops the current node and continues from
    the node now on top, which is what backtracking to the previous node means.
  */
  datatype PopRule = PopIntoCurrent | PopThenPeek

  /** One body of the backtracking loop (it runs only while the stack is not empty). */
  function BacktrackStep(G: Graph, choose: nat -> nat, rule: PopRule, s: Walk): (r: Walk)
    requires |s.stack| > 0
    ensures r.path == s.path || (r.path == s.path + [r.current] && r.stack == s.stack + [r.current] && r.current !in s.visited)
    ensures r.path == s.path ==> r.stack == s.stack || r.stack == s.stack[..|s.stack| - 1]
  {
    var nbs := Neighbors(G, s.current);
    if |nbs| == 0 then s
    else
      match Pick(nbs, s.visited, choose, s.draws)
      case (Some(v), d) => Extend(s, v, d)
      case (None, d) =>
        var rest := s.stack[..|s.stack| - 1];
        match rule
        case PopIntoCurrent => Walk(s.stack[|s.stack| - 1], rest, s.visited, s.path, d)
        case PopThenPeek => Walk(if |rest| > 0 then rest[|rest| - 1] else s.current, rest, s.visited, s.path, d)
  }

  /**
    The loop `while len(stack) > 0 and <coin>` of the backtracking variant: the final state and
    the number of loop bodies entered.
  */
  function WalkBacktrack(G: Graph, coins: seq<bool>, choose: nat -> nat, rule: PopRule, s: Walk): (r: (Walk, nat))
    ensures r.1 <= |coins| && forall i :: 0 <= i < r.1 ==> coins[i]
    ensures s.path <= r.0.path
    decreases |coins|
  {
    if |s.stack| == 0 || |coins| == 0 || !coins[0] then (s, 0)
    else
      var (f, n) := WalkBacktrack(G, coins[1..], choose, rule, BacktrackStep(G, choose, rule, s));
      (f, n + 1)
  }

  /**
    randomWalk of POC/BaselineApp2.py, POC/BaselineApp.py, POC/previous-versions/BaselineApp.py
    and util/naive3.0.py, as written.
  */
  method RandomWalkBacktrack(G: Graph, start: Node, coins: seq<bool>, choose: nat -> nat) returns (finalPath: seq<Node>)
    ensures finalPath == WalkBacktrack(G, coins, choose, PopIntoCurrent, Begin(start)).0.path
  {
    var stack := [start];
    var visitedNodes := {start};
    finalPath := [start];
    var currentRandomNode := start;
    var x := 0;
    var d := 0;
    while |stack| > 0 && x < |coins| && coins[x]
      invariant x <= |coins|
      invariant WalkBacktrack(G, coins[x..], choose, PopIntoCurrent, Walk(currentRandomNode, stack, visitedNodes, finalPath, d)).0
             == WalkBacktrack(G, coins, choose, PopIntoCurrent, Begin(start)).0
      decreases |coins| - x
    {
      ghost var s0 := Walk(currentRandomNode, stack, visitedNodes, finalPath, d);
      assert coins[x..][0] == coins[x] && coins[x..][1..] == coins[x + 1..];
      var neighbors := Neighbors(G, currentRandomNode);
      if |neighbors| > 0 {
        ghost var picked := Pick(neighbors, visitedNodes, choose, d);
        var randomNeighbor := neighbors[choose(d) % |neighbors|];
        d := d + 1;
        while randomNeighbor in visitedNodes
          invariant |neighbors| > 0 && randomNeighbor in neighbors
          invariant PickFrom(neighbors, randomNeighbor, visitedNodes, choose, d) == picked
          decreases |neighbors|
        {
          neighbors := RemoveFirst(neighbors, randomNeighbor);
          if |neighbors| > 0 {
            randomNeighbor := neighbors[choose(d) % |neighbors|];
            d := d + 1;
          } else {
            assert picked == (None, d);
            break;
          }
        }
        if |neighbors| > 0 {
          assert picked == (Some(randomNeighbor), d);
          visitedNodes := visitedNodes + {randomNeighbor};
          stack := stack + [randomNeighbor];
          currentRandomNode := randomNeighbor;
          finalPath := finalPath + [randomNeighbor];
        } else {
          // back track to previous node
          currentRandomNode := stack[|stack| - 1];
          stack := stack[..|stack| - 1];
        }
        assert BacktrackStep(G, choose, PopIntoCurrent, s0) == Walk(currentRandomNode, stack, visitedNodes, finalPath, d);
      }
      x := x + 1;
    }
  }

  /**
    The backtracking walk visits distinct nodes of G, lists exactly the visited ones, its stack
    and current node are visited, and every visited node is reached from the start through
    visited nodes: the walk never leaves the start's connected component.
  */
  ghost predicate BackInv(G: Graph, start: Node, s: Walk) {
    && |s.path| > 0 && s.path[0] == start
    && Distinct(s.path)
    && (forall v :: v in s.visited <==> v in s.path)
    && s.visited <= G.Keys
    && s.current in s.visited
    && (forall v :: v in s.stack ==> v in s.visited)
    && (forall v :: v in s.visited ==> ReachIn(G, s.visited, start, v))
  }

  /**
    What the corrected rule keeps: the current node is the top of a non-empty stack, and a
    visited node that is off the stack has no unvisited neighbour.
  */
  ghost predicate Frontier(G: Graph, s: Walk) {
    && (|s.stack| > 0 ==> s.current == s.stack[|s.stack| - 1])
    && (forall v, u :: v in s.visited && v !in s.stack && u in Neighbors(G, v) ==> u in s.visited)
  }

  lemma {:induction false} BackExtend(G: Graph, start: Node, s: Walk, v: Node, d: nat)
    requires WellFormed(G) && BackInv(G, start, s)
    requires v in Neighbors(G, s.current) && v !in s.visited
    ensures BackInv(G, start, Extend(s, v, d))
  {
    var V := s.visited + {v};
    assert s.current in G && v in G;
    forall w | w in V
      ensures ReachIn(G, V, start, w)
    {
      if w == v {
        ReachWiden(G, s.visited, V, start, s.current);
        ReachEdge(G, V, s.current, v);
        ReachTrans(G, V, start, s.current, v);
      } else {
        ReachWiden(G, s.visited, V, start, w);
      }
    }
    var p := s.path + [v];
    forall i, j | 0 <= i < j < |p|
      ensures p[i] != p[j]
    {
      if j == |p| - 1 {
        assert p[i] == s.path[i] && p[i] in s.visited;
      }
    }
  }

  lemma {:induction false} BackStep(G: Graph, start: Node, choose: nat -> nat, rule: PopRule, s: Walk)
    requires WellFormed(G) && BackInv(G, start, s) && |s.stack| > 0
    ensures BackInv(G, start, BacktrackStep(G, choose, rule, s))
    ensures rule == PopThenPeek && Frontier(G, s) ==> Frontier(G, BacktrackStep(G, choose, rule, s))
  {
    var nbs := Neighbors(G, s.current);
    if |nbs| > 0 {
      match Pick(nbs, s.visited, choose, s.draws)
      case (Some(v), d) =>
        BackExtend(G, start, s, v, d);
      case (None, d) =>
        var rest := s.stack[..|s.stack| - 1];
        match rule
        case PopIntoCurrent =>
          BackPop(G, start, s, s.stack[|s.stack| - 1], d);
        case PopThenPeek =>
          var c := if |rest| > 0 then rest[|rest| - 1] else s.current;
          assert c in s.stack || c == s.current;
          BackPop(G, start, s, c, d);
          if Frontier(G, s) {
            FrontierPop(G, s, d);
          }
    }
  }

  /** Popping the stack, with any stacked node (or the current one) as the new current node. */
  lemma {:induction false} BackPop(G: Graph, start: Node, s: Walk, c: Node, d: nat)
    requires BackInv(G, start, s) && |s.stack| > 0 && (c in s.stack || c == s.current)
    ensures BackInv(G, start, Walk(c, s.stack[..|s.stack| - 1], s.visited, s.path, d))
  {
    var rest := s.stack[..|s.stack| - 1];
    assert forall w :: w in rest ==> w in s.stack;
  }

  /** Popping a dead end under the corrected rule keeps the frontier. */
  lemma {:induction false} FrontierPop(G: Graph, s: Walk, d: nat)
    requires Frontier(G, s) && |s.stack| > 0
    requires forall u :: u in Neighbors(G, s.current) ==> u in s.visited
    ensures var rest := s.stack[..|s.stack| - 1];
      Frontier(G, Walk(if |rest| > 0 then rest[|rest| - 1] else s.current, rest, s.visited, s.path, d))
  {
    var rest := s.stack[..|s.stack| - 1];
    assert s.stack == rest + [s.stack[|s.stack| - 1]];
    forall w, u | w in s.visited && w !in rest && u in Neighbors(G, w)
      ensures u in s.visited
    {
      if w in s.stack {
        assert w == s.current;
      }
    }
  }


  /**
    What the backtracking loop ends with: the invariants still hold, every coin drawn came up
    True, and it stopped either because the next coin is False or missing, or with an empty
    stack.
  */
  lemma {:induction false} BacktrackFacts(G: Graph, coins: seq<bool>, choose: nat -> nat, rule: PopRule, s: Walk, start: Node)
    requires WellFormed(G) && BackInv(G, start, s)
    ensures var (f, n) := WalkBacktrack(G, coins, choose, rule, s);
      && BackInv(G, start, f)
      && (rule == PopThenPeek && Frontier(G, s) ==> Frontier(G, f))
      && n <= |coins| && (forall i :: 0 <= i < n ==> coins[i])
      && (n < |coins| && coins[n] ==> |f.stack| == 0)
    decreases |coins|
  {
    if |s.stack| > 0 && |coins| > 0 && coins[0] {
      BackStep(G, start, choose, rule, s);
      BacktrackFacts(G, coins[1..], choose, rule, BacktrackStep(G, choose, rule, s), start);
    }
  }

  lemma {:induction false} BeginInv(G: Graph, start: Node)
    requires start in G
    ensures BackInv(G, start, Begin(start)) && Frontier(G, Begin(start))
  {
    ReachRefl(G, {start}, start);
  }

  /**
    Under either rule the walk is a list of distinct nodes of the start's connected component,
    and it ends at the first False (or missing) coin or once the stack is empty.
  */
  lemma {:induction false} RandomWalkBacktrackStaysInComponent(G: Graph, start: Node, coins: seq<bool>, choose: nat -> nat, rule: PopRule)
    requires WellFormed(G) && start in G
    ensures var (f, n) := WalkBacktrack(G, coins, choose, rule, Begin(start));
      && |f.path| > 0 && f.path[0] == start && Distinct(f.path)
      && (forall i :: 0 <= i < |f.path| ==> f.path[i] in G && ReachIn(G, G.Keys, start, f.path[i]))
      && n <= |coins| && (forall i :: 0 <= i < n ==> coins[i])
      && (n < |coins| && coins[n] ==> |f.stack| == 0)
  {
    BeginInv(G, start);
    BacktrackFacts(G, coins, choose, rule, Begin(start), start);
    var f := WalkBacktrack(G, coins, choose, rule, Begin(start)).0;
    forall i | 0 <= i < |f.path|
      ensures f.path[i] in G && ReachIn(G, G.Keys, start, f.path[i])
    {
      assert f.path[i] in f.visited;
      ReachWiden(G, f.visited, G.Keys, start, f.path[i]);
    }
  }

  /** p[i] is a neighbour of some node listed before it. */
  ghost predicate JoinsEarlier(G: Graph, p: seq<Node>, i: int)
    requires 0 <= i < |p|
  {
    exists j :: 0 <= j < i && p[j] in G && p[i] in G[p[j]]
  }

  /** Every node of p after the first is a neighbour of some node listed before it. */
  ghost predicate GrowsByEdges(G: Graph, p: seq<Node>) {
    forall i :: 0 < i < |p| ==> JoinsEarlier(G, p, i)
  }

  /** A loop body only appends a neighbour of the current node, which is already on the walk. */
  lemma {:induction false} GrowsStep(G: Graph, choose: nat -> nat, rule: PopRule, s: Walk)
    requires s.current in s.path && GrowsByEdges(G, s.path) && |s.stack| > 0
    ensures GrowsByEdges(G, BacktrackStep(G, choose, rule, s).path)
  {
    var nbs := Neighbors(G, s.current);
    if |nbs| > 0 {
      match Pick(nbs, s.visited, choose, s.draws)
      case (Some(v), d) =>
        var p := s.path + [v];
        var c :| 0 <= c < |s.path| && s.path[c] == s.current;
        forall i | 0 < i < |p|
          ensures JoinsEarlier(G, p, i)
        {
          if i == |p| - 1 {
            assert p[c] == s.current && s.current in G && v in G[s.current];
          } else {
            assert JoinsEarlier(G, s.path, i);
            var j :| 0 <= j < i && s.path[j] in G && s.path[i] in G[s.path[j]];
            assert p[j] == s.path[j] && p[i] == s.path[i];
          }
        }
      case (None, d) =>
    }
  }

  lemma {:induction false} BacktrackGrows(G: Graph, coins: seq<bool>, choose: nat -> nat, rule: PopRule, s: Walk, start: Node)
    requires WellFormed(G) && BackInv(G, start, s) && GrowsByEdges(G, s.path)
    ensures GrowsByEdges(G, WalkBacktrack(G, coins, choose, rule, s).0.path)
    decreases |coins|
  {
    if |s.stack| > 0 && |coins| > 0 && coins[0] {
      BackStep(G, start, choose, rule, s);
      assert s.current in s.path;
      GrowsStep(G, choose, rule, s);
      BacktrackGrows(G, coins[1..], choose, rule, BacktrackStep(G, choose, rule, s), start);
    }
  }

  /**
    Under either rule every node the backtracking walk adds after the start is a neighbour of
    a node it added earlier; after a backtrack, consecutive nodes of the walk need not be
    adjacent.
  */
  lemma {:induction false} RandomWalkBacktrackGrowsByEdges(G: Graph, start: Node, coins: seq<bool>, choose: nat -> nat, rule: PopRule)
    requires WellFormed(G) && start in G
    ensures GrowsByEdges(G, WalkBacktrack(G, coins, choose, rule, Begin(start)).0.path)
  {
    BeginInv(G, start);
    BacktrackGrows(G, coins, choose, rule, Begin(start), start);
  }

  // ---------------------------------------------------------------- the stack follows the walk

  /** xs is a subsequence of ys: its elements occur in ys in the same order. */
  ghost predicate IsSubseq(xs: seq<Node>, ys: seq<Node>)
    decreases |ys|
  {
    if |xs| == 0 then true
    else if |ys| == 0 then false
    else if xs[|xs| - 1] == ys[|ys| - 1] then IsSubseq(xs[..|xs| - 1], ys[..|ys| - 1])
    else IsSubseq(xs, ys[..|ys| - 1])
  }

  /** Pushing a node and appending it to the walk keeps the stack a subsequence. */
  lemma {:induction false} SubseqSnoc(xs: seq<Node>, ys: seq<Node>, v: Node)
    requires IsSubseq(xs, ys)
    ensures IsSubseq(xs + [v], ys + [v])
  {
    assert (xs + [v])[..|xs|] == xs && (ys + [v])[..|ys|] == ys;
  }

  /** A subsequence stays one when the longer sequence grows. */
  lemma {:induction false} SubseqGrow(xs: seq<Node>, ys: seq<Node>, v: Node)
    requires IsSubseq(xs, ys)
    ensures IsSubseq(xs, ys + [v])
    decreases |ys|, 1
  {
    assert (ys + [v])[..|ys|] == ys;
    if |xs| > 0 && xs[|xs| - 1] == v {
      SubseqDropLast(xs, ys);
    }
  }

  /** Popping the stack keeps it a subsequence. */
  lemma {:induction false} SubseqDropLast(xs: seq<Node>, ys: seq<Node>)
    requires IsSubseq(xs, ys) && |xs| > 0
    ensures IsSubseq(xs[..|xs| - 1], ys)
    decreases |ys|, 0
  {
    var init := ys[..|ys| - 1];
    assert ys == init + [ys[|ys| - 1]];
    if xs[|xs| - 1] == ys[|ys| - 1] {
      SubseqGrow(xs[..|xs| - 1], init, ys[|ys| - 1]);
    } else {
      SubseqDropLast(xs, init);
      SubseqGrow(xs[..|xs| - 1], init, ys[|ys| - 1]);
    }
  }

  /** A loop body pushes what it appends and pops nothing it did not push. */
  lemma {:induction false} StackStep(G: Graph, choose: nat -> nat, rule: PopRule, s: Walk)
    requires |s.stack| > 0 && IsSubseq(s.stack, s.path)
    ensures IsSubseq(BacktrackStep(G, choose, rule, s).stack, BacktrackStep(G, choose, rule, s).path)
  {
    var nbs := Neighbors(G, s.current);
    if |nbs| > 0 {
      match Pick(nbs, s.visited, choose, s.draws)
      case (Some(v), d) =>
        SubseqSnoc(s.stack, s.path, v);
      case (None, d) =>
        SubseqDropLast(s.stack, s.path);
    }
  }

  lemma {:induction false} BacktrackStack(G: Graph, coins: seq<bool>, choose: nat -> nat, rule: PopRule, s: Walk)
    requires IsSubseq(s.stack, s.path)
    ensures var f := WalkBacktrack(G, coins, choose, rule, s).0; IsSubseq(f.stack, f.path)
    decreases |coins|
  {
    if |s.stack| > 0 && |coins| > 0 && coins[0] {
      StackStep(G, choose, rule, s);
      BacktrackStack(G, coins[1..], choose, rule, BacktrackStep(G, choose, rule, s));
    }
  }

  /**
    Under either rule the stack is always a subsequence of finalPath: each push appends the
    same node to the path, and a pop removes the last node pushed.
  */
  lemma {:induction false} RandomWalkBacktrackStackIsSubseq(G: Graph, start: Node, coins: seq<bool>, choose: nat -> nat, rule: PopRule)
    ensures var f := WalkBacktrack(G, coins, choose, rule, Begin(start)).0; IsSubseq(f.stack, f.path)
  {
    assert IsSubseq([start], [start]) by {
      assert [start][..0] == [];
    }
    BacktrackStack(G, coins, choose, rule, Begin(start));
  }

  /**
    With the corrected rule, a walk that ends because its stack ran empty has visited the
    whole connected component of its start: the visited nodes are a component of G.
  */
  lemma {:induction false} IntendedExhaustsComponent(G: Graph, start: Node, coins: seq<bool>, choose: nat -> nat)
    requires WellFormed(G) && start in G
    ensures var f := WalkBacktrack(G, coins, choose, PopThenPeek, Begin(start)).0;
      |f.stack| == 0 ==> IsComponent(G, G.Keys, f.visited) && start in f.visited
  {
    BeginInv(G, start);
    BacktrackFacts(G, coins, choose, PopThenPeek, Begin(start), start);
    var f := WalkBacktrack(G, coins, choose, PopThenPeek, Begin(start)).0;
    if |f.stack| == 0 {
      assert f.path[0] in f.visited;
      RootedConnected(G, f.visited, start);
      forall x, y | x in f.visited && x in G && y in G[x] && y in G.Keys
        ensures y in f.visited
      {
        assert y in Neighbors(G, x);
      }
    }
  }

  /** The path 2 - 0 - 1. */
  function Fork(): Graph {
    map[0 := [1, 2], 1 := [0], 2 := [0]]
  }

  /** random.choice always returning the first candidate. */
  function FirstChoice(d: nat): nat {
    0
  }

  /**
    As written, backtracking does not revisit the fork: from 0 the walk goes to 1, the first
    dead-end step pops 1 into the current node, the second pops 0 and empties the stack, and the
    loop ends although 0's neighbour 2 was never visited.  With the corrected rule the same
    draws reach 2.
  */
  lemma {:induction false} AsWrittenStopsEarly()
    ensures var f := WalkBacktrack(Fork(), [true, true, true, true], FirstChoice, PopIntoCurrent, Begin(0)).0;
      && f.stack == [] && f.path == [0, 1]
      && 2 in Neighbors(Fork(), 0) && 2 !in f.visited
      && !Closed(Fork(), Fork().Keys, f.visited)
  {
    var G := Fork();
    var coins := [true, true, true, true];
    var s1 := BacktrackStep(G, FirstChoice, PopIntoCurrent, Begin(0));
    assert s1 == Walk(1, [0, 1], {0, 1}, [0, 1], 1);
    var s2 := BacktrackStep(G, FirstChoice, PopIntoCurrent, s1);
    assert s2 == Walk(1, [0], {0, 1}, [0, 1], 2) by {
      assert RemoveFirst([0], 0) == [];
    }
    var s3 := BacktrackStep(G, FirstChoice, PopIntoCurrent, s2);
    assert s3 == Walk(0, [], {0, 1}, [0, 1], 3);
    assert WalkBacktrack(G, coins, FirstChoice, PopIntoCurrent, Begin(0)).0 == s3 by {
      assert coins[1..][1..][1..] == [true];
      assert WalkBacktrack(G, coins[1..][1..][1..], FirstChoice, PopIntoCurrent, s3).0 == s3;
    }
    assert 0 in s3.visited && 0 in G && 2 in G[0] && 2 in G.Keys;
  }

  /** On the same draws, the corrected rule goes back to the fork and visits its other branch. */
  lemma {:induction false} IntendedVisitsFork()
    ensures WalkBacktrack(Fork(), [true, true, true, true], FirstChoice, PopThenPeek, Begin(0)).0.path == [0, 1, 2]
  {
    var G := Fork();
    var coins := [true, true, true, true];
    var t1 := BacktrackStep(G, FirstChoice, PopThenPeek, Begin(0));
    assert t1 == Walk(1, [0, 1], {0, 1}, [0, 1], 1);
    var t2 := BacktrackStep(G, FirstChoice, PopThenPeek, t1);
    assert t2 == Walk(0, [0], {0, 1}, [0, 1], 2);
    var t3 := BacktrackStep(G, FirstChoice, PopThenPeek, t2);
    assert t3 == Walk(2, [0, 2], {0, 1, 2}, [0, 1, 2], 4) by {
      assert RemoveFirst([1, 2], 1) == [2];
    }
    var t4 := BacktrackStep(G, FirstChoice, PopThenPeek, t3);
    assert t4 == Walk(0, [0], {0, 1, 2}, [0, 1, 2], 5);
    assert WalkBacktrack(G, coins, FirstChoice, PopThenPeek, Begin(0)).0 == t4 by {
      assert coins[1..][1..][1..][1..] == [];
    }
  }


  // ---------------------------------------------------------------- generateRandomWalks

  /**
    generateRandomWalks of POC/RandomWalksGenerator.py: count stopping walks, the i-th one
    started at the node nodes[starts(i)] (random.choice over list(G.nodes())) and driven by its
    own oracles.  Choosing from an empty node list raises IndexError.
  */
  method GenerateRandomWalks(G: Graph, nodes: seq<Node>, count: nat, starts: nat -> nat,
                             coins: nat -> seq<bool>, choose: nat -> nat -> nat)
    returns (r: Result<seq<seq<Node>>>)
    ensures r.Err? <==> count > 0 && |nodes| == 0
    ensures r.Ok? ==> |r.value| == count
    ensures r.Ok? ==> forall i :: 0 <= i < count ==>
      r.value[i] == WalkStop(G, coins(i), choose(i), Begin(nodes[starts(i) % |nodes|])).0.path
  {
    var randomWalks: seq<seq<Node>> := [];
    var i := 1;
    while i <= count
      invariant 1 <= i <= count + 1 && |randomWalks| == i - 1
      invariant i > 1 ==> |nodes| > 0
      invariant forall j :: 0 <= j < i - 1 ==>
        randomWalks[j] == WalkStop(G, coins(j), choose(j), Begin(nodes[starts(j) % |nodes|])).0.path
    {
      if |nodes| == 0 {
        return Err(IndexOutOfRange(0));
      }
      var start := nodes[starts(i - 1) % |nodes|];
      var walk := RandomWalkStop(G, start, coins(i - 1), choose(i - 1));
      randomWalks := randomWalks + [walk];
      i := i + 1;
    }
    return Ok(randomWalks);
  }

  /** When the node list is the graph's, all the generated walks are simple paths of G. */
  lemma {:induction false} GeneratedWalksArePaths(G: Graph, nodes: seq<Node>, i: nat, starts: nat -> nat,
                               coins: nat -> seq<bool>, choose: nat -> nat -> nat)
    requires WellFormed(G) && |nodes| > 0 && (forall k :: 0 <= k < |nodes| ==> nodes[k] in G)
    ensures var w := WalkStop(G, coins(i), choose(i), Begin(nodes[starts(i) % |nodes|])).0.path;
      && |w| > 0 && w[0] == nodes[starts(i) % |nodes|] && Distinct(w)
      && (forall k :: 0 <= k < |w| - 1 ==> w[k] in G && w[k + 1] in G[w[k]])
  {
    RandomWalkStopIsSimplePath(G, nodes[starts(i) % |nodes|], coins(i), choose(i));
  }
}
