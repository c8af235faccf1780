/**
  The static undirected graph G and the vocabulary shared by every component finder:
  paths through a set of active nodes, closed and connected node sets, and partitions
  of an active set into its connected components.
*/
module Graphs {

  type Node = int

  /** An adjacency description: node id to the ordered list of its neighbours. */
  type Graph = map<Node, seq<Node>>

  /**
    What a networkx undirected graph guarantees: every neighbour is itself a node, the
    adjacency is symmetric and no neighbour is listed twice.  Self-loops are not excluded.
  */
  ghost predicate WellFormed(G: Graph) {
    && (forall u, v :: u in G && v in G[u] ==> v in G && u in G[v])
    && (forall u, i, j :: u in G && 0 <= i < j < |G[u]| ==> G[u][i] != G[u][j])
  }

  /** p is a walk in G whose every node lies in S. */
  ghost predicate IsPath(G: Graph, S: set<Node>, p: seq<Node>) {
    && |p| > 0
    && (forall i :: 0 <= i < |p| ==> p[i] in S)
    && (forall i :: 0 <= i < |p| - 1 ==> p[i] in G && p[i + 1] in G[p[i]])
  }

  /** y can be reached from x along edges of G without leaving S. */
  ghost predicate ReachIn(G: Graph, S: set<Node>, x: Node, y: Node) {
    exists p :: IsPath(G, S, p) && p[0] == x && p[|p| - 1] == y
  }

  /** Every neighbour in A of a member of C is itself a member of C. */
  ghost predicate Closed(G: Graph, A: set<Node>, C: set<Node>) {
    forall x, y :: x in C && x in G && y in G[x] && y in A ==> y in C
  }

  /** Any two members of C are joined by a path that stays inside C. */
  ghost predicate Connected(G: Graph, C: set<Node>) {
    forall x, y :: x in C && y in C ==> ReachIn(G, C, x, y)
  }

  /** C is a connected component of the subgraph of G induced by the active set A. */
  ghost predicate IsComponent(G: Graph, A: set<Node>, C: set<Node>) {
    C != {} && C <= A && Closed(G, A, C) && Connected(G, C)
  }

  /**
    P is the partition of A into the connected components of the induced subgraph:
    components, pairwise disjoint, covering A.
  */
  ghost predicate IsPartition(G: Graph, A: set<Node>, P: set<set<Node>>) {
    && (forall C :: C in P ==> IsComponent(G, A, C))
    && (forall C, D :: C in P && D in P && C != D ==> C !! D)
    && (forall x :: x in A ==> exists C :: C in P && x in C)
  }

  /** The same property for a list of components, as the finders return them. */
  ghost predicate IsComponentList(G: Graph, A: set<Node>, cs: seq<set<Node>>) {
    && (forall i :: 0 <= i < |cs| ==> IsComponent(G, A, cs[i]))
    && (forall i, j :: 0 <= i < j < |cs| ==> cs[i] !! cs[j])
    && (forall x :: x in A ==> exists i :: 0 <= i < |cs| && x in cs[i])
  }

  function Elements(cs: seq<set<Node>>): (r: set<set<Node>>)
    ensures forall C :: C in r <==> exists i :: 0 <= i < |cs| && cs[i] == C
  {
    set i | 0 <= i < |cs| :: cs[i]
  }

  function Reverse(p: seq<Node>): (r: seq<Node>)
    ensures |r| == |p|
    ensures forall i :: 0 <= i < |p| ==> r[i] == p[|p| - 1 - i]
  {
    seq(|p|, i requires 0 <= i < |p| => p[|p| - 1 - i])
  }

  // ---------------------------------------------------------------- paths

  lemma {:induction false} PathExtend(G: Graph, S: set<Node>, p: seq<Node>, y: Node)
    requires IsPath(G, S, p) && p[|p| - 1] in G && y in G[p[|p| - 1]] && y in S
    ensures IsPath(G, S, p + [y])
  {
    var q := p + [y];
    forall i | 0 <= i < |q| - 1
      ensures q[i] in G && q[i + 1] in G[q[i]]
    {
      if i < |p| - 1 {
        assert q[i] == p[i] && q[i + 1] == p[i + 1];
      } else {
        assert q[i] == p[|p| - 1] && q[i + 1] == y;
      }
    }
  }

  lemma {:induction false} PathWiden(G: Graph, S: set<Node>, T: set<Node>, p: seq<Node>)
    requires IsPath(G, S, p) && S <= T
    ensures IsPath(G, T, p)
  {
  }

  lemma {:induction false} ReachWiden(G: Graph, S: set<Node>, T: set<Node>, x: Node, y: Node)
    requires ReachIn(G, S, x, y) && S <= T
    ensures ReachIn(G, T, x, y)
  {
    var p :| IsPath(G, S, p) && p[0] == x && p[|p| - 1] == y;
    PathWiden(G, S, T, p);
  }

  lemma {:induction false} PathConcat(G: Graph, S: set<Node>, p: seq<Node>, q: seq<Node>)
    requires IsPath(G, S, p) && IsPath(G, S, q) && p[|p| - 1] == q[0]
    ensures IsPath(G, S, p + q[1..])
    ensures (p + q[1..])[0] == p[0] && (p + q[1..])[|p| + |q| - 2] == q[|q| - 1]
  {
    var r := p + q[1..];
    assert |r| == |p| + |q| - 1;
    forall i | 0 <= i < |r|
      ensures r[i] in S
    {
      if i < |p| { assert r[i] == p[i]; } else { assert r[i] == q[i - |p| + 1]; }
    }
    forall i | 0 <= i < |r| - 1
      ensures r[i] in G && r[i + 1] in G[r[i]]
    {
      if i < |p| - 1 {
        assert r[i] == p[i] && r[i + 1] == p[i + 1];
      } else {
        var k := i - |p| + 1;
        assert r[i] == q[k] && r[i + 1] == q[k + 1];
      }
    }
  }

  lemma {:induction false} ReachTrans(G: Graph, S: set<Node>, x: Node, y: Node, z: Node)
    requires ReachIn(G, S, x, y) && ReachIn(G, S, y, z)
    ensures ReachIn(G, S, x, z)
  {
    var p :| IsPath(G, S, p) && p[0] == x && p[|p| - 1] == y;
    var q :| IsPath(G, S, q) && q[0] == y && q[|q| - 1] == z;
    PathConcat(G, S, p, q);
  }

  lemma {:induction false} PathReverse(G: Graph, S: set<Node>, p: seq<Node>)
    requires WellFormed(G) && IsPath(G, S, p)
    ensures IsPath(G, S, Reverse(p))
  {
    var r := Reverse(p);
    forall i | 0 <= i < |r| - 1
      ensures r[i] in G && r[i + 1] in G[r[i]]
    {
      var k := |p| - 2 - i;
      assert r[i] == p[k + 1] && r[i + 1] == p[k];
      assert p[k] in G && p[k + 1] in G[p[k]];
    }
  }

  lemma {:induction false} ReachSymmetric(G: Graph, S: set<Node>, x: Node, y: Node)
    requires WellFormed(G) && ReachIn(G, S, x, y)
    ensures ReachIn(G, S, y, x)
  {
    var p :| IsPath(G, S, p) && p[0] == x && p[|p| - 1] == y;
    PathReverse(G, S, p);
    var r := Reverse(p);
    assert r[0] == y && r[|r| - 1] == x;
  }

  /** The one-node path: every node of S reaches itself. */
  lemma {:induction false} ReachRefl(G: Graph, S: set<Node>, x: Node)
    requires x in S
    ensures ReachIn(G, S, x, x)
  {
    assert IsPath(G, S, [x]);
  }

  /** One edge inside S is a path. */
  lemma {:induction false} ReachEdge(G: Graph, S: set<Node>, x: Node, y: Node)
    requires x in S && y in S && x in G && y in G[x]
    ensures ReachIn(G, S, x, y)
  {
    var p := [x, y];
    assert IsPath(G, S, p);
  }

  /** A path that starts in a set closed under neighbours in A, and stays in A, never leaves it. */
  lemma {:induction false} ClosedKeepsPath(G: Graph, A: set<Node>, C: set<Node>, p: seq<Node>)
    requires IsPath(G, A, p) && p[0] in C && Closed(G, A, C)
    ensures forall i :: 0 <= i < |p| ==> p[i] in C
  {
    if |p| > 1 {
      var q := p[..|p| - 1];
      assert IsPath(G, A, q);
      ClosedKeepsPath(G, A, C, q);
      assert q[|p| - 2] == p[|p| - 2];
      assert p[|p| - 2] in G && p[|p| - 1] in G[p[|p| - 2]];
      var x, y := p[|p| - 2], p[|p| - 1];
      assert x in C && x in G && y in G[x] && y in A;
      forall i | 0 <= i < |p|
        ensures p[i] in C
      {
        if i < |p| - 1 { assert p[i] == q[i]; }
      }
    }
  }

  /** Reachability from one root of C through C makes C connected (the graph is undirected). */
  lemma {:induction false} RootedConnected(G: Graph, C: set<Node>, r: Node)
    requires WellFormed(G) && r in C
    requires forall x :: x in C ==> ReachIn(G, C, r, x)
    ensures Connected(G, C)
  {
    forall x, y | x in C && y in C
      ensures ReachIn(G, C, x, y)
    {
      ReachSymmetric(G, C, r, x);
      ReachTrans(G, C, x, r, y);
    }
  }

  // ---------------------------------------------------------------- components

  lemma {:induction false} PickOne<T>(C: set<T>) returns (c: T)
    requires C != {}
    ensures c in C
  {
    if forall x :: x !in C {
      assert false;
    }
    c :| c in C;
  }

  /** A witness that one set is not contained in another. */
  lemma {:induction false} NotSubset<T>(A: set<T>, B: set<T>) returns (u: T)
    requires !(A <= B)
    ensures u in A && u !in B
  {
    if forall v :: v in A ==> v in B {
      assert false;
    }
    u :| u in A && u !in B;
  }

  /**
    A component of a smaller active set lies inside a single component of any partition of a
    larger one.  Read with A = prev ∩ curr and B = prev, it says that deactivating nodes only
    splits components; read with A the active set before and B the one after an activation, it
    says that activating nodes only merges them.
  */
  lemma {:induction false} ComponentNests(G: Graph, A: set<Node>, B: set<Node>, C: set<Node>, P: set<set<Node>>)
    requires A <= B && IsComponent(G, A, C) && IsPartition(G, B, P)
    ensures exists D :: D in P && C <= D
  {
    var c := PickOne(C);
    var D :| D in P && c in D;
    forall x | x in C
      ensures x in D
    {
      var p :| IsPath(G, C, p) && p[0] == c && p[|p| - 1] == x;
      PathWiden(G, C, B, p);
      ClosedKeepsPath(G, B, D, p);
    }
  }

  /** Two components of the same active set that share a node are the same component. */
  lemma {:induction false} ComponentsMeet(G: Graph, A: set<Node>, C: set<Node>, D: set<Node>, x: Node)
    requires IsComponent(G, A, C) && IsComponent(G, A, D) && x in C && x in D
    ensures C == D
  {
    forall y | y in D
      ensures y in C
    {
      assert ReachIn(G, D, x, y);
      var p :| IsPath(G, D, p) && p[0] == x && p[|p| - 1] == y;
      PathWiden(G, D, A, p);
      ClosedKeepsPath(G, A, C, p);
    }
    forall y | y in C
      ensures y in D
    {
      assert ReachIn(G, C, x, y);
      var p :| IsPath(G, C, p) && p[0] == x && p[|p| - 1] == y;
      PathWiden(G, C, A, p);
      ClosedKeepsPath(G, A, D, p);
    }
  }

  /** Components that cover the active set already form its partition: disjointness is free. */
  lemma {:induction false} CoverIsPartition(G: Graph, A: set<Node>, P: set<set<Node>>)
    requires forall C :: C in P ==> IsComponent(G, A, C)
    requires forall x :: x in A ==> exists C :: C in P && x in C
    ensures IsPartition(G, A, P)
  {
    forall C, D | C in P && D in P && C != D
      ensures C !! D
    {
      if C * D != {} {
        var x := PickOne(C * D);
        ComponentsMeet(G, A, C, D, x);
        assert false;
      }
      assert forall x :: x in C ==> x !in C * D;
    }
  }

  /** The partition of an active set into components is unique. */
  lemma {:induction false} PartitionUnique(G: Graph, A: set<Node>, P: set<set<Node>>, Q: set<set<Node>>)
    requires IsPartition(G, A, P) && IsPartition(G, A, Q)
    ensures P == Q
  {
    forall C | C in P
      ensures C in Q
    {
      PartOfOther(G, A, P, Q, C);
    }
    forall D | D in Q
      ensures D in P
    {
      PartOfOther(G, A, Q, P, D);
    }
  }

  lemma {:induction false} PartOfOther(G: Graph, A: set<Node>, P: set<set<Node>>, Q: set<set<Node>>, C: set<Node>)
    requires IsPartition(G, A, P) && IsPartition(G, A, Q) && C in P
    ensures C in Q
  {
    assert IsComponent(G, A, C);
    ComponentNests(G, A, A, C, Q);
    var D :| D in Q && C <= D;
    assert IsComponent(G, A, D);
    ComponentNests(G, A, A, D, P);
    var C' :| C' in P && D <= C';
    var c := PickOne(C);
    assert c in C && c in C';
    assert C == C';
    assert D == C;
  }

  /** A component list is a partition once its order is forgotten. */
  lemma {:induction false} ListIsPartition(G: Graph, A: set<Node>, cs: seq<set<Node>>)
    requires IsComponentList(G, A, cs)
    ensures IsPartition(G, A, Elements(cs))
  {
    var P := Elements(cs);
    forall C, D | C in P && D in P && C != D
      ensures C !! D
    {
      var i :| 0 <= i < |cs| && cs[i] == C;
      var j :| 0 <= j < |cs| && cs[j] == D;
      assert i != j;
      if i < j { assert cs[i] !! cs[j]; } else { assert cs[j] !! cs[i]; }
    }
    forall x | x in A
      ensures exists C :: C in P && x in C
    {
      var i :| 0 <= i < |cs| && x in cs[i];
      assert cs[i] in P;
    }
  }

  /** Each active node lies in exactly one component of a partition. */
  lemma {:induction false} PartitionOwner(G: Graph, A: set<Node>, P: set<set<Node>>, x: Node)
    requires IsPartition(G, A, P) && x in A
    ensures exists C :: C in P && x in C && forall D :: D in P && x in D ==> D == C
  {
    var C :| C in P && x in C;
  }

  /**
    Active nodes share a component exactly when a path through active nodes joins them —
    the definition of a component, proved of every partition.
  */
  lemma {:induction false} SameComponentIffReach(G: Graph, A: set<Node>, P: set<set<Node>>, C: set<Node>, x: Node, y: Node)
    requires IsPartition(G, A, P) && C in P && x in C && y in A
    ensures y in C <==> ReachIn(G, A, x, y)
  {
    if y in C {
      ReachWiden(G, C, A, x, y);
    } else if ReachIn(G, A, x, y) {
      var p :| IsPath(G, A, p) && p[0] == x && p[|p| - 1] == y;
      ClosedKeepsPath(G, A, C, p);
      assert false;
    }
  }
}
