/**
  The "remove inactive nodes" step of the generators: copy G and remove every node whose
  entry is 0, column by column of the activity matrix (genActiveGraphs of every baseline app)
  or step by step of the time map through a 0/1 node mask (aggregateRandomWalks of
  POC/RandomWalksGenerator.py and POC/BaselineApp3.py), then list the connected components of
  what is left, largest first.
*/
module ActiveGraphs {
  import opened Wrappers
  import opened Graphs
  import FindActivePaths
  import ActivityMatrix
  import TimeMaps

  // ---------------------------------------------------------------- induced subgraphs

  /** The members of s that lie in K, in their order. */
  function Keep(s: seq<Node>, K: set<Node>): (r: seq<Node>)
    ensures forall u :: u in r <==> u in s && u in K
    decreases |s|
  {
    if |s| == 0 then [] else (if s[0] in K then [s[0]] else []) + Keep(s[1..], K)
  }

  /** The members of s other than n, in their order. */
  function Drop(s: seq<Node>, n: Node): (r: seq<Node>)
    ensures forall u :: u in r <==> u in s && u != n
    decreases |s|
  {
    if |s| == 0 then [] else (if s[0] == n then [] else [s[0]]) + Drop(s[1..], n)
  }

  /** The subgraph of G induced by K: the nodes of G in K, each with its neighbours in K. */
  function Induced(G: Graph, K: set<Node>): (H: Graph)
    ensures H.Keys == G.Keys * K
    ensures forall v, u :: v in H ==> (u in H[v] <==> u in G[v] && u in K)
  {
    map v | v in G.Keys * K :: Keep(G[v], K)
  }

  /**
    networkx remove_node(n): the node and every edge at it go, the other adjacency lists keep
    their order; a node that is not in the graph raises NetworkXError.
  */
  function RemoveNode(G: Graph, n: Node): (r: Result<Graph>)
    ensures r.Err? <==> n !in G
    ensures r.Err? ==> r.error == UnknownNode(n)
    ensures r.Ok? ==> r.value.Keys == G.Keys - {n}
    ensures r.Ok? ==> forall v, u :: v in r.value ==> (u in r.value[v] <==> u in G[v] && u != n)
  {
    if n !in G then Err(UnknownNode(n))
    else Ok(map v | v in G.Keys - {n} :: Drop(G[v], n))
  }

  lemma {:induction false} DropKeep(s: seq<Node>, K: set<Node>, n: Node)
    ensures Drop(Keep(s, K), n) == Keep(s, K - {n})
    decreases |s|
  {
    if |s| > 0 {
      DropKeep(s[1..], K, n);
      var head := if s[0] in K then [s[0]] else [];
      assert Keep(s, K) == head + Keep(s[1..], K);
      if s[0] in K {
        assert Keep(s, K)[1..] == Keep(s[1..], K);
      } else {
        assert Keep(s, K) == Keep(s[1..], K);
      }
    }
  }

  lemma {:induction false} KeepAll(s: seq<Node>, K: set<Node>)
    requires forall i :: 0 <= i < |s| ==> s[i] in K
    ensures Keep(s, K) == s
    decreases |s|
  {
    if |s| > 0 {
      assert forall i :: 0 <= i < |s| - 1 ==> s[1..][i] == s[i + 1];
      KeepAll(s[1..], K);
      assert Keep(s, K) == [s[0]] + Keep(s[1..], K);
      assert [s[0]] + s[1..] == s;
    }
  }

  lemma {:induction false} KeepDistinct(s: seq<Node>, K: set<Node>)
    requires forall i, j :: 0 <= i < j < |s| ==> s[i] != s[j]
    ensures forall i, j :: 0 <= i < j < |Keep(s, K)| ==> Keep(s, K)[i] != Keep(s, K)[j]
    decreases |s|
  {
    if |s| > 0 {
      var t := s[1..];
      assert forall i, j :: 0 <= i < j < |t| ==> t[i] != t[j] by {
        forall i, j | 0 <= i < j < |t|
          ensures t[i] != t[j]
        {
          assert t[i] == s[i + 1] && t[j] == s[j + 1];
        }
      }
      KeepDistinct(t, K);
      if s[0] in K {
        assert s[0] !in Keep(t, K) by {
          assert s[0] !in t;
        }
        ConsDistinct(s[0], Keep(t, K));
      }
    }
  }

  /** A node in front of a list of distinct nodes without it keeps them distinct. */
  lemma {:induction false} ConsDistinct(x: Node, s: seq<Node>)
    requires forall i, j :: 0 <= i < j < |s| ==> s[i] != s[j]
    requires x !in s
    ensures forall i, j :: 0 <= i < j < |[x] + s| ==> ([x] + s)[i] != ([x] + s)[j]
  {
    var r := [x] + s;
    forall i, j | 0 <= i < j < |r|
      ensures r[i] != r[j]
    {
      if i > 0 {
        assert r[i] == s[i - 1] && r[j] == s[j - 1];
      } else {
        assert r[j] in s;
      }
    }
  }


  /** A copy of the whole graph is the subgraph induced by all its nodes. */
  lemma {:induction false} InducedAll(G: Graph)
    requires WellFormed(G)
    ensures Induced(G, G.Keys) == G
  {
    var H := Induced(G, G.Keys);
    assert H.Keys == G.Keys;
    forall v | v in G
      ensures H[v] == G[v]
    {
      assert forall i :: 0 <= i < |G[v]| ==> G[v][i] in G[v];
      KeepAll(G[v], G.Keys);
    }
  }

  /** Removing one more node of the induced subgraph leaves the subgraph induced by one node fewer. */
  lemma {:induction false} RemoveFromInduced(G: Graph, K: set<Node>, n: Node)
    requires n in G && n in K
    ensures RemoveNode(Induced(G, K), n) == Ok(Induced(G, K - {n}))
  {
    var H := Induced(G, K);
    assert n in H;
    var R := RemoveNode(H, n).value;
    var I := Induced(G, K - {n});
    assert R.Keys == I.Keys;
    forall v | v in R
      ensures R[v] == I[v]
    {
      assert v in H && R[v] == Drop(H[v], n) && H[v] == Keep(G[v], K);
      assert I[v] == Keep(G[v], K - {n});
      DropKeep(G[v], K, n);
    }
    assert R == I;
  }

  /** An induced subgraph of a networkx graph is again one. */
  lemma {:induction false} InducedWellFormed(G: Graph, K: set<Node>)
    requires WellFormed(G)
    ensures WellFormed(Induced(G, K))
  {
    var H := Induced(G, K);
    forall u | u in H
      ensures forall i, j :: 0 <= i < j < |H[u]| ==> H[u][i] != H[u][j]
    {
      KeepDistinct(G[u], K);
    }
  }

  /** A path inside a set of kept nodes is a path of the induced subgraph and of G alike. */
  lemma {:induction false} InducedPaths(G: Graph, K: set<Node>, C: set<Node>, p: seq<Node>)
    requires C <= G.Keys * K
    ensures IsPath(Induced(G, K), C, p) <==> IsPath(G, C, p)
  {
  }

  lemma {:induction false} InducedComponent(G: Graph, K: set<Node>, C: set<Node>)
    ensures IsComponent(Induced(G, K), G.Keys * K, C) <==> IsComponent(G, G.Keys * K, C)
  {
    var H := Induced(G, K);
    var A := G.Keys * K;
    if C <= A {
      forall p | true
        ensures IsPath(H, C, p) <==> IsPath(G, C, p)
      {
        InducedPaths(G, K, C, p);
      }
      assert Connected(H, C) <==> Connected(G, C);
      assert Closed(H, A, C) <==> Closed(G, A, C);
    }
  }

  /**
    networkx's components of the graph left after the removals are the components of G on the
    kept nodes, so the component predicate shared with the breadth-first finder describes them.
  */
  lemma {:induction false} InducedComponents(G: Graph, K: set<Node>, cs: seq<set<Node>>)
    ensures IsComponentList(Induced(G, K), Induced(G, K).Keys, cs) <==> IsComponentList(G, G.Keys * K, cs)
  {
    forall i | 0 <= i < |cs|
      ensures IsComponent(Induced(G, K), G.Keys * K, cs[i]) <==> IsComponent(G, G.Keys * K, cs[i])
    {
      InducedComponent(G, K, cs[i]);
    }
  }

  // ---------------------------------------------------------------- the removal loop

  /** The node numbers whose entry is 0. */
  function Zeros(row: seq<int>): (Z: set<Node>)
    ensures forall i :: i in Z <==> 0 <= i < |row| && row[i] == 0
  {
    set i | 0 <= i < |row| && row[i] == 0
  }

  /**
    The removal loop of genActiveGraphs and aggregateRandomWalks: newG = G.copy(), then walk
    the node numbers 0, 1, ... along the row and remove_node every one whose entry is 0.  A
    zero entry for a number that is not a node of G raises.
  */
  method RemoveInactive(G: Graph, row: seq<int>) returns (r: Result<Graph>)
    requires WellFormed(G)
    ensures r.Err? <==> !(Zeros(row) <= G.Keys)
    ensures r.Err? ==> r.error.UnknownNode? && r.error.node in Zeros(row) && r.error.node !in G
    ensures r.Ok? ==> r.value == Induced(G, G.Keys - Zeros(row))
    ensures r.Ok? ==> forall n :: n in r.value <==> n in G && !(0 <= n < |row| && row[n] == 0)
  {
    var newG := G;
    ghost var removed: set<Node> := {};
    InducedAll(G);
    assert G.Keys - removed == G.Keys;
    var nodeNum := 0;
    while nodeNum < |row|
      invariant 0 <= nodeNum <= |row|
      invariant removed == Zeros(row[..nodeNum]) && removed <= G.Keys
      invariant newG == Induced(G, G.Keys - removed)
    {
      ZerosNext(row, nodeNum);
      if row[nodeNum] == 0 {
        var smaller := RemoveNode(newG, nodeNum);
        if smaller.Err? {
          return Err(smaller.error);
        }
        RemoveFromInduced(G, G.Keys - removed, nodeNum);
        assert G.Keys - removed - {nodeNum} == G.Keys - (removed + {nodeNum});
        newG := smaller.value;
        removed := removed + {nodeNum};
      }
      nodeNum := nodeNum + 1;
    }
    assert row[..|row|] == row;
    return Ok(newG);
  }

  /** One more node number of the row: it is among the zeros exactly when its entry is 0. */
  lemma {:induction false} ZerosNext(row: seq<int>, k: nat)
    requires k < |row|
    ensures row[k] == 0 ==> Zeros(row[..k + 1]) == Zeros(row[..k]) + {k}
    ensures k !in Zeros(row[..k])
    ensures row[k] != 0 ==> Zeros(row[..k + 1]) == Zeros(row[..k])
  {
    assert forall i :: 0 <= i < k ==> row[..k + 1][i] == row[..k][i];
  }

  // ---------------------------------------------------------------- sorted(..., key=len, reverse=True)

  /** cs lists the components of G on K, largest first. */
  ghost predicate Listed(G: Graph, K: set<Node>, cs: seq<set<Node>>) {
    IsComponentList(G, K, cs) && SizeOrdered(cs)
  }

  /** Components listed largest first. */
  ghost predicate SizeOrdered(cs: seq<set<Node>>) {
    forall i, j :: 0 <= i < j < |cs| ==> |cs[i]| >= |cs[j]|
  }

  /** Put c after every component at least as large as it, which keeps equal sizes in arrival order. */
  method InsertBySize(sorted: seq<set<Node>>, c: set<Node>) returns (s: seq<set<Node>>)
    requires SizeOrdered(sorted)
    ensures SizeOrdered(s)
    ensures multiset(s) == multiset(sorted) + multiset{c}
  {
    var p := 0;
    while p < |sorted| && |sorted[p]| >= |c|
      invariant 0 <= p <= |sorted|
      invariant forall j :: 0 <= j < p ==> |sorted[j]| >= |c|
    {
      p := p + 1;
    }
    s := sorted[..p] + [c] + sorted[p..];
    assert sorted == sorted[..p] + sorted[p..];
    InsertedOrdered(sorted, c, p);
  }

  lemma {:induction false} InsertedOrdered(sorted: seq<set<Node>>, c: set<Node>, p: nat)
    requires SizeOrdered(sorted) && p <= |sorted|
    requires forall j :: 0 <= j < p ==> |sorted[j]| >= |c|
    requires p < |sorted| ==> |sorted[p]| < |c|
    ensures SizeOrdered(sorted[..p] + [c] + sorted[p..])
  {
    var s := sorted[..p] + [c] + sorted[p..];
    forall i, j | 0 <= i < j < |s|
      ensures |s[i]| >= |s[j]|
    {
      if j > p {
        assert s[j] == sorted[j - 1];
        if i < p {
          assert s[i] == sorted[i];
        } else if i > p {
          assert s[i] == sorted[i - 1];
        } else {
          assert |sorted[p]| >= |sorted[j - 1]|;
        }
      } else if j == p {
        assert s[i] == sorted[i];
      } else {
        assert s[i] == sorted[i] && s[j] == sorted[j];
      }
    }
  }

  /** sorted(components, key=len, reverse=True): the same components, largest first. */
  method SortBySize(cs: seq<set<Node>>) returns (sorted: seq<set<Node>>)
    ensures multiset(sorted) == multiset(cs)
    ensures SizeOrdered(sorted)
  {
    sorted := [];
    for k := 0 to |cs|
      invariant multiset(sorted) == multiset(cs[..k])
      invariant SizeOrdered(sorted)
    {
      sorted := InsertBySize(sorted, cs[k]);
      assert cs[..k + 1] == cs[..k] + [cs[k]];
    }
    assert cs[..|cs|] == cs;
  }

  /** In a list of non-empty, pairwise disjoint sets no set is listed twice. */
  lemma {:induction false} ListedOnce(cs: seq<set<Node>>, x: set<Node>)
    requires forall i :: 0 <= i < |cs| ==> cs[i] != {}
    requires forall i, j :: 0 <= i < j < |cs| ==> cs[i] !! cs[j]
    ensures multiset(cs)[x] <= 1
    decreases |cs|
  {
    if |cs| > 0 {
      var init := cs[..|cs| - 1];
      var last := cs[|cs| - 1];
      assert cs == init + [last];
      ListedOnce(init, x);
      if last == x {
        forall k | 0 <= k < |init|
          ensures init[k] != x
        {
          assert init[k] == cs[k] && cs[k] !! last;
          var y := PickOne(last);
          assert y !in init[k];
        }
        assert x !in init;
      }
    }
  }

  /** Reordering a component list gives a component list of the same active set. */
  lemma {:induction false} PermutedComponentList(G: Graph, A: set<Node>, cs: seq<set<Node>>, ds: seq<set<Node>>)
    requires IsComponentList(G, A, cs) && multiset(ds) == multiset(cs)
    ensures IsComponentList(G, A, ds)
  {
    forall i | 0 <= i < |ds|
      ensures exists a :: 0 <= a < |cs| && cs[a] == ds[i]
    {
      assert ds[i] in multiset(ds);
      assert ds[i] in cs;
    }
    forall i, j | 0 <= i < j < |ds|
      ensures ds[i] !! ds[j]
    {
      ListedOnce(cs, ds[j]);
      assert ds == ds[..j] + [ds[j]] + ds[j + 1..];
      assert multiset(ds[..j])[ds[j]] == 0;
      assert ds[..j][i] == ds[i];
      assert ds[i] != ds[j];
      var a :| 0 <= a < |cs| && cs[a] == ds[i];
      var b :| 0 <= b < |cs| && cs[b] == ds[j];
      assert a != b;
    }
    forall x | x in A
      ensures exists i :: 0 <= i < |ds| && x in ds[i]
    {
      var a :| 0 <= a < |cs| && x in cs[a];
      assert cs[a] in multiset(cs);
      assert cs[a] in ds;
    }
  }

  // ---------------------------------------------------------------- one step

  /**
    One time step: remove the nodes whose entry in row is 0, then list the connected
    components of what is left (networkx's connected_components, for which the breadth-first
    finder stands in) largest first.
  */
  method StepComponents(G: Graph, row: seq<int>) returns (r: Result<seq<set<Node>>>)
    requires WellFormed(G)
    ensures r.Err? <==> !(Zeros(row) <= G.Keys)
    ensures r.Ok? ==> Listed(G, G.Keys - Zeros(row), r.value)
    ensures r.Ok? ==> (|r.value| == 0 <==> G.Keys - Zeros(row) == {})
  {
    var newG :- RemoveInactive(G, row);
    ghost var K := G.Keys - Zeros(row);
    InducedWellFormed(G, K);
    var found := FindActivePaths.FindActiveComponents(newG, newG.Keys);
    var components := found.value;
    var sorted := SortBySize(components);
    InducedComponents(G, K, components);
    assert G.Keys * K == K;
    PermutedComponentList(G, K, components, sorted);
    if K != {} {
      var x := PickOne(K);
      assert exists i :: 0 <= i < |sorted| && x in sorted[i];
    }
    if |sorted| > 0 {
      var x := PickOne(sorted[0]);
      assert x in K;
    }
    return Ok(sorted);
  }

  /** The loop appending each sorted component to the step's list, which it creates on the first one. */
  method AppendComponents(outputMap: map<int, seq<set<Node>>>, key: int, sorted: seq<set<Node>>)
    returns (m: map<int, seq<set<Node>>>)
    requires key !in outputMap
    ensures |sorted| == 0 ==> m == outputMap
    ensures |sorted| > 0 ==> m == outputMap[key := sorted]
  {
    m := outputMap;
    for k := 0 to |sorted|
      invariant k == 0 ==> m == outputMap
      invariant k > 0 ==> m == outputMap[key := sorted[..k]]
    {
      assert sorted[..k] + [sorted[k]] == sorted[..k + 1];
      if key in m {
        m := m[key := m[key] + [sorted[k]]];
      } else {
        assert k == 0 && sorted[..1] == [sorted[k]];
        m := m[key := [sorted[k]]];
      }
    }
    assert sorted[..|sorted|] == sorted;
  }

  // ---------------------------------------------------------------- genActiveGraphs

  /** Column c of the matrix, as df[column] hands it to the loop. */
  function Column(M: array2<int>, c: nat): (col: seq<int>)
    requires c < M.Length1
    reads M
    ensures |col| == M.Length0 && forall i :: 0 <= i < M.Length0 ==> col[i] == M[i, c]
  {
    seq(M.Length0, i requires 0 <= i < M.Length0 reads M => M[i, c])
  }

  /**
    genActiveGraphs of POC/BaselineApp.py, POC/previous-versions/BaselineApp.py and
    util/naive3.0.py: for each of the first t columns, the copy of G without the nodes whose
    entry is 0 (the graph it writes as an adjacency list).  nodeNum restarts at 0 for every
    column.  Asking for more columns than the matrix has raises ValueError.
  */
  method GenActiveGraphs(G: Graph, M: array2<int>, t: nat) returns (r: Result<seq<Graph>>)
    requires WellFormed(G)
    ensures r.Err? <==> t > M.Length1 || exists c :: 0 <= c < t && !(Zeros(Column(M, c)) <= G.Keys)
    ensures r.Ok? ==> |r.value| == t
    ensures r.Ok? ==> forall c :: 0 <= c < t ==> r.value[c] == Induced(G, G.Keys - Zeros(Column(M, c)))
    ensures r.Ok? ==> forall c, n :: 0 <= c < t ==>
      (n in r.value[c] <==> n in G && !(0 <= n < M.Length0 && M[n, c] == 0))
  {
    if t > M.Length1 {
      return Err(ValueError);
    }
    var graphs: seq<Graph> := [];
    for column := 0 to t
      invariant |graphs| == column
      invariant forall c :: 0 <= c < column ==> Zeros(Column(M, c)) <= G.Keys
      invariant forall c :: 0 <= c < column ==> graphs[c] == Induced(G, G.Keys - Zeros(Column(M, c)))
    {
      var newG := RemoveInactive(G, Column(M, column));
      if newG.Err? {
        assert 0 <= column < t && !(Zeros(Column(M, column)) <= G.Keys);
        return Err(newG.error);
      }
      graphs := graphs + [newG.value];
    }
    return Ok(graphs);
  }

  /**
    genActiveGraphs of POC/BaselineApp3.py and POC/BaselineApp2.py: the same removal per
    column, then outputMap[column] lists the components of what is left, largest first; a
    column where nothing is left gets no entry.
  */
  method GenActiveComponents(G: Graph, M: array2<int>, t: nat) returns (r: Result<map<int, seq<set<Node>>>>)
    requires WellFormed(G)
    ensures r.Err? <==> t > M.Length1 || exists c :: 0 <= c < t && !(Zeros(Column(M, c)) <= G.Keys)
    ensures r.Ok? ==> forall c :: c in r.value <==> 0 <= c < t && G.Keys - Zeros(Column(M, c)) != {}
    ensures r.Ok? ==> forall c :: c in r.value ==> Listed(G, G.Keys - Zeros(Column(M, c)), r.value[c])
  {
    if t > M.Length1 {
      return Err(ValueError);
    }
    var outputMap: map<int, seq<set<Node>>> := map[];
    for column := 0 to t
      invariant OutputSoFar(G, M, column, outputMap)
    {
      var sorted := StepComponents(G, Column(M, column));
      if sorted.Err? {
        assert 0 <= column < t && !(Zeros(Column(M, column)) <= G.Keys);
        return Err(sorted.error);
      }
      OutputAdvance(G, M, column, outputMap, sorted.value);
      outputMap := AppendComponents(outputMap, column, sorted.value);
    }
    return Ok(outputMap);
  }

  /** The loop's invariant: the columns before column are read and listed. */
  ghost predicate OutputSoFar(G: Graph, M: array2<int>, column: int, outputMap: map<int, seq<set<Node>>>)
    reads M
  {
    && 0 <= column <= M.Length1
    && (forall c :: 0 <= c < column ==> Zeros(Column(M, c)) <= G.Keys)
    && (forall c :: c in outputMap <==> 0 <= c < column && G.Keys - Zeros(Column(M, c)) != {})
    && (forall c :: c in outputMap ==> Listed(G, G.Keys - Zeros(Column(M, c)), outputMap[c]))
  }

  /** The components of one more column keep the invariant. */
  lemma {:induction false} OutputAdvance(G: Graph, M: array2<int>, column: int, outputMap: map<int, seq<set<Node>>>,
                                       sorted: seq<set<Node>>)
    requires OutputSoFar(G, M, column, outputMap) && column < M.Length1
    requires Zeros(Column(M, column)) <= G.Keys
    requires Listed(G, G.Keys - Zeros(Column(M, column)), sorted)
    requires |sorted| == 0 <==> G.Keys - Zeros(Column(M, column)) == {}
    ensures column !in outputMap
    ensures OutputSoFar(G, M, column + 1, if |sorted| == 0 then outputMap else outputMap[column := sorted])
  {
    var after := if |sorted| == 0 then outputMap else outputMap[column := sorted];
    forall c | c in after
      ensures Listed(G, G.Keys - Zeros(Column(M, c)), after[c])
    {
      if c != column {
        assert c in outputMap && after[c] == outputMap[c];
      }
    }
  }

  // ---------------------------------------------------------------- aggregateRandomWalks

  /** nodesMatrix[0, path] = 1 accepts a path whose every node is an index of the row, negative ones counting from the end. */
  ghost predicate MaskValid(walks: seq<seq<Node>>, n: nat) {
    forall w, v :: 0 <= w < |walks| && v in walks[w] ==> ActivityMatrix.NumpyIndex(v, n).Some?
  }

  /** Position i of the row is set by some node of the path. */
  ghost predicate Hits(walk: seq<Node>, n: nat, i: int) {
    exists v :: v in walk && ActivityMatrix.NumpyIndex(v, n) == Some(i)
  }

  ghost predicate Marked(walks: seq<seq<Node>>, n: nat, i: int) {
    exists w :: 0 <= w < |walks| && Hits(walks[w], n, i)
  }

  /** The 1 x numOfNodes mask: 1 where some path of the step puts a node, 0 elsewhere. */
  ghost function MaskRow(walks: seq<seq<Node>>, n: nat): (row: seq<int>)
    ensures |row| == n && forall i :: 0 <= i < n ==> (row[i] == 1 <==> Marked(walks, n, i)) && (row[i] == 0 <==> !Marked(walks, n, i))
  {
    seq(n, i => if Marked(walks, n, i) then 1 else 0)
  }

  /** The nodes aggregateRandomWalks keeps at a step: those of G whose mask entry is not 0. */
  ghost function ActiveSet(G: Graph, walks: seq<seq<Node>>): set<Node> {
    G.Keys - Zeros(MaskRow(walks, |G|))
  }

  /**
    For the generator's graphs, whose nodes are 0 .. numOfNodes - 1, and paths through them,
    the nodes kept at a step are exactly the nodes of the paths listed at that step.
  */
  lemma {:induction false} ActiveSetIsVisited(G: Graph, walks: seq<seq<Node>>)
    requires forall v :: v in G <==> 0 <= v < |G|
    requires forall w, v :: 0 <= w < |walks| && v in walks[w] ==> v in G
    ensures MaskValid(walks, |G|)
    ensures forall v :: v in ActiveSet(G, walks) <==> exists w :: 0 <= w < |walks| && v in walks[w]
  {
    var n := |G|;
    forall w, v | 0 <= w < |walks| && v in walks[w]
      ensures ActivityMatrix.NumpyIndex(v, n).Some?
    {
      assert v in G && 0 <= v < n;
    }
    forall v
      ensures v in ActiveSet(G, walks) <==> exists w :: 0 <= w < |walks| && v in walks[w]
    {
      if v in ActiveSet(G, walks) {
        assert Marked(walks, n, v);
        var w :| 0 <= w < |walks| && Hits(walks[w], n, v);
        var u :| u in walks[w] && ActivityMatrix.NumpyIndex(u, n) == Some(v);
        assert u in G && 0 <= u < n;
        assert ActivityMatrix.NumpyIndex(u, n) == Some(u);
      }
      if exists w :: 0 <= w < |walks| && v in walks[w] {
        var w :| 0 <= w < |walks| && v in walks[w];
        assert ActivityMatrix.NumpyIndex(v, n) == Some(v);
        assert Hits(walks[w], n, v);
        assert MaskRow(walks, n)[v] == 1;
      }
    }
  }

  /** A step that aggregateRandomWalks gets through: every index is in range, every removed number a node. */
  ghost predicate StepValid(G: Graph, walks: seq<seq<Node>>) {
    MaskValid(walks, |G|) && Zeros(MaskRow(walks, |G|)) <= G.Keys
  }

  /** nodesMatrix[0, node] = 1 for one path: every listed position is set to 1; an index out of range raises. */
  method MarkWalk(nodesMatrix: array<int>, walk: seq<Node>) returns (bad: Option<Node>)
    modifies nodesMatrix
    ensures bad.None? <==> forall v :: v in walk ==> ActivityMatrix.NumpyIndex(v, nodesMatrix.Length).Some?
    ensures bad.None? ==> forall i :: 0 <= i < nodesMatrix.Length ==>
      nodesMatrix[i] == if Hits(walk, nodesMatrix.Length, i) then 1 else old(nodesMatrix[i])
  {
    var n := nodesMatrix.Length;
    for k := 0 to |walk|
      invariant forall j :: 0 <= j < k ==> ActivityMatrix.NumpyIndex(walk[j], n).Some?
      invariant forall i :: 0 <= i < n ==>
        nodesMatrix[i] == if Hits(walk[..k], n, i) then 1 else old(nodesMatrix[i])
    {
      var index := ActivityMatrix.NumpyIndex(walk[k], n);
      if index.None? {
        return Some(walk[k]);
      }
      nodesMatrix[index.value] := 1;
      forall i | 0 <= i < n
        ensures Hits(walk[..k + 1], n, i) <==> Hits(walk[..k], n, i) || index == Some(i)
      {
        assert walk[..k + 1] == walk[..k] + [walk[k]];
      }
    }
    assert walk[..|walk|] == walk;
    return None;
  }

  lemma {:induction false} MarkedNext(walks: seq<seq<Node>>, n: nat, w: nat)
    requires w < |walks|
    ensures forall i :: Marked(walks[..w + 1], n, i) <==> Marked(walks[..w], n, i) || Hits(walks[w], n, i)
    ensures MaskValid(walks[..w + 1], n) <==>
      MaskValid(walks[..w], n) && forall v :: v in walks[w] ==> ActivityMatrix.NumpyIndex(v, n).Some?
  {
    var p := walks[..w + 1];
    assert forall x :: 0 <= x < w ==> p[x] == walks[..w][x];
    assert p[w] == walks[w];
  }

  /** The mask of one step: a fresh zero row with every path marked in turn. */
  method MarkActive(walks: seq<seq<Node>>, n: nat) returns (r: Result<array<int>>)
    ensures r.Err? <==> !MaskValid(walks, n)
    ensures r.Err? ==> r.error.IndexOutOfRange?
    ensures r.Ok? ==> fresh(r.value) && r.value[..] == MaskRow(walks, n)
  {
    var nodesMatrix := new int[n](_ => 0);
    for w := 0 to |walks|
      invariant nodesMatrix.Length == n
      invariant MaskValid(walks[..w], n)
      invariant forall i :: 0 <= i < n ==> nodesMatrix[i] == if Marked(walks[..w], n, i) then 1 else 0
    {
      MarkedNext(walks, n, w);
      var bad := MarkWalk(nodesMatrix, walks[w]);
      if bad.Some? {
        assert !MaskValid(walks[..w + 1], n);
        assert !MaskValid(walks, n) by {
          var v :| v in walks[w] && ActivityMatrix.NumpyIndex(v, n).None?;
        }
        return Err(IndexOutOfRange(bad.value));
      }
    }
    assert walks[..|walks|] == walks;
    return Ok(nodesMatrix);
  }

  /**
    aggregateRandomWalks: for each step t of the time map, mark in a 1 x numOfNodes row every
    node of every path listed at t, remove from a copy of G the numbers 0 .. numOfNodes - 1
    left at 0, and store the components of what is left, largest first, under t; a step with
    nothing left gets no entry.  numOfNodes is the number of nodes of G.
  */
  method AggregateRandomWalks(timeMap: TimeMaps.TimeMap, G: Graph) returns (r: Result<map<int, seq<set<Node>>>>)
    requires WellFormed(G)
    ensures r.Err? <==> exists t :: t in timeMap && !StepValid(G, timeMap[t])
    ensures r.Ok? ==> forall t :: t in r.value <==> t in timeMap && ActiveSet(G, timeMap[t]) != {}
    ensures r.Ok? ==> forall t :: t in r.value ==>
      Listed(G, ActiveSet(G, timeMap[t]), r.value[t])
  {
    var numOfNodes := |G|;
    var aggregateTimeMap: map<int, seq<set<Node>>> := map[];
    var remaining := timeMap.Keys;
    while remaining != {}
      invariant remaining <= timeMap.Keys
      invariant forall t :: t in timeMap && t !in remaining ==> StepValid(G, timeMap[t])
      invariant forall t :: t in aggregateTimeMap <==> t in timeMap && t !in remaining && ActiveSet(G, timeMap[t]) != {}
      invariant forall t :: t in aggregateTimeMap ==>
        Listed(G, ActiveSet(G, timeMap[t]), aggregateTimeMap[t])
      decreases |remaining|
    {
      ghost var some := PickOne(remaining);
      var t :| t in remaining;
      var nodesMatrix := MarkActive(timeMap[t], numOfNodes);
      if nodesMatrix.Err? {
        return Err(nodesMatrix.error);
      }
      var sorted := StepComponents(G, nodesMatrix.value[..]);
      if sorted.Err? {
        return Err(sorted.error);
      }
      aggregateTimeMap := AppendComponents(aggregateTimeMap, t, sorted.value);
      remaining := remaining - {t};
    }
    return Ok(aggregateTimeMap);
  }
}
