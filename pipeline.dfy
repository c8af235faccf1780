/**
  The tail of main in POC/RandomWalksGenerator.py: listByTime turns the stamped walks into the
  time map, aggregateRandomWalks turns the paths of each step into the components of the nodes
  they visit, and genInputFile fills the activity matrix from those components, walking each
  component set in whatever order the set yields its nodes.  POC/BaselineApp3.py fills its
  matrix from the walks instead; on the generator's graphs both fills set the same cells.
*/
module Pipeline {
  import opened Wrappers
  import opened Graphs
  import opened TimeMaps
  import opened ActivityMatrix
  import ActiveGraphs

  /** The generator's graphs: the nodes are the numbers 0 .. n - 1. */
  ghost predicate Numbered(G: Graph) {
    forall v :: v in G <==> 0 <= v < |G|
  }

  /** Every node of every path listed in the time map is a node of G. */
  ghost predicate ListedIn(G: Graph, tm: TimeMap) {
    forall t, w, v :: t in tm && 0 <= w < |tm[t]| && v in tm[t][w] ==> v in G
  }

  /** What aggregateRandomWalks promises of its result agg on the time map tm. */
  ghost predicate Aggregates(G: Graph, tm: TimeMap, agg: map<int, seq<set<Node>>>) {
    && (forall t :: t in agg <==> t in tm && ActiveGraphs.ActiveSet(G, tm[t]) != {})
    && (forall t :: t in agg ==> ActiveGraphs.Listed(G, ActiveGraphs.ActiveSet(G, tm[t]), agg[t]))
  }

  /** lists holds every component of agg as a list of its nodes, in some order. */
  ghost predicate Enumerates(agg: map<int, seq<set<Node>>>, lists: TimeMap) {
    lists.Keys == agg.Keys && forall t :: t in agg ==> ListsOf(lists[t], agg[t])
  }

  /** ws lists the nodes of every component of cs, in the same order. */
  ghost predicate ListsOf(ws: seq<seq<Node>>, cs: seq<set<Node>>) {
    |ws| == |cs| && forall i :: 0 <= i < |cs| ==> forall v :: v in ws[i] <==> v in cs[i]
  }

  // ---------------------------------------------------------------- rows of a numbered graph

  /** When every node is a row index, a path hits row a exactly when a is on it. */
  lemma {:induction false} RowHitIsMember(p: seq<Node>, rows: nat, a: int)
    requires forall v :: v in p ==> 0 <= v < rows
    ensures RowsValid(p, |p|, rows)
    ensures RowHit(p, |p|, rows, a) <==> a in p
  {
    forall j | 0 <= j < |p|
      ensures NumpyIndex(p[j], rows) == Some(p[j])
    {
      assert p[j] in p;
    }
    if a in p {
      var j :| 0 <= j < |p| && p[j] == a;
      assert NumpyIndex(p[j], rows) == Some(a);
    }
    if RowHit(p, |p|, rows, a) {
      var j :| 0 <= j < |p| && NumpyIndex(p[j], rows) == Some(a);
      assert p[j] in p;
    }
  }

  lemma {:induction false} WalksHitIsMember(ws: seq<seq<Node>>, rows: nat, a: int)
    requires forall w, v :: 0 <= w < |ws| && v in ws[w] ==> 0 <= v < rows
    ensures WalksValid(ws, |ws|, rows)
    ensures WalksHit(ws, |ws|, rows, a) <==> exists w :: 0 <= w < |ws| && a in ws[w]
  {
    forall w | 0 <= w < |ws|
      ensures RowsValid(ws[w], |ws[w]|, rows) && (RowHit(ws[w], |ws[w]|, rows, a) <==> a in ws[w])
    {
      RowHitIsMember(ws[w], rows, a);
    }
  }

  // ---------------------------------------------------------------- the fill from the components

  /** The paths listed at one step hit exactly the rows of the nodes kept at that step. */
  lemma {:induction false} PathsHitKept(G: Graph, walks: seq<seq<Node>>)
    requires Numbered(G)
    requires forall w, v :: 0 <= w < |walks| && v in walks[w] ==> v in G
    ensures WalksValid(walks, |walks|, |G|)
    ensures forall a :: WalksHit(walks, |walks|, |G|, a) <==> a in ActiveGraphs.ActiveSet(G, walks)
  {
    ActiveGraphs.ActiveSetIsVisited(G, walks);
    assert forall w, v :: 0 <= w < |walks| && v in walks[w] ==> 0 <= v < |G| by {
      forall w, v | 0 <= w < |walks| && v in walks[w]
        ensures 0 <= v < |G|
      {
        assert v in G;
      }
    }
    forall a
      ensures WalksHit(walks, |walks|, |G|, a) <==> a in ActiveGraphs.ActiveSet(G, walks)
    {
      WalksHitIsMember(walks, |G|, a);
    }
  }

  /** The node lists of a component list of A hit exactly the rows of A. */
  lemma {:induction false} ComponentsHitKept(G: Graph, A: set<Node>, cs: seq<set<Node>>, ws: seq<seq<Node>>)
    requires Numbered(G) && A <= G.Keys
    requires IsComponentList(G, A, cs) && ListsOf(ws, cs)
    ensures WalksValid(ws, |ws|, |G|)
    ensures forall a :: WalksHit(ws, |ws|, |G|, a) <==> a in A
  {
    var n := |G|;
    assert forall w, v :: 0 <= w < |ws| && v in ws[w] ==> 0 <= v < n by {
      forall w, v | 0 <= w < |ws| && v in ws[w]
        ensures 0 <= v < n
      {
        assert v in cs[w] && cs[w] <= A;
      }
    }
    WalksHitIsMember(ws, n, 0);
    forall a
      ensures WalksHit(ws, |ws|, n, a) <==> a in A
    {
      WalksHitIsMember(ws, n, a);
      if a in A {
        var i :| 0 <= i < |cs| && a in cs[i];
        assert a in ws[i];
      }
      if exists w :: 0 <= w < |ws| && a in ws[w] {
        var w :| 0 <= w < |ws| && a in ws[w];
        assert a in cs[w] && cs[w] <= A;
      }
    }
  }

  /**
    genInputFile over the components aggregateRandomWalks lists sets the same cells as
    genInputFile over the paths of the time map would: a component holds only kept nodes,
    every kept node is in a component, and the kept nodes are the nodes on the paths.
  */
  lemma {:induction false} AggregateFillIsActive(G: Graph, tm: TimeMap, agg: map<int, seq<set<Node>>>, lists: TimeMap, ts: nat)
    requires Numbered(G) && ListedIn(G, tm)
    requires Aggregates(G, tm, agg) && Enumerates(agg, lists)
    ensures TimeMapValid(lists, ts, |G|) && TimeMapValid(tm, ts, |G|)
    ensures forall a, b :: TimeMapCovers(lists, ts, |G|, a, b) <==> TimeMapCovers(tm, ts, |G|, a, b)
  {
    forall t | t in tm
      ensures WalksValid(tm[t], |tm[t]|, |G|)
      ensures forall a :: WalksHit(tm[t], |tm[t]|, |G|, a) <==> a in ActiveGraphs.ActiveSet(G, tm[t])
    {
      PathsHitKept(G, tm[t]);
    }
    forall t | t in lists
      ensures WalksValid(lists[t], |lists[t]|, |G|)
      ensures forall a :: WalksHit(lists[t], |lists[t]|, |G|, a) <==> a in ActiveGraphs.ActiveSet(G, tm[t])
    {
      ComponentsHitKept(G, ActiveGraphs.ActiveSet(G, tm[t]), agg[t], lists[t]);
    }
  }

  /** A path listed at a step of listByTime's map is the path of some walk. */
  lemma {:induction false} ByTimeListedIn(G: Graph, es: seq<Timed>)
    requires forall i, v :: 0 <= i < |es| && v in es[i].path ==> v in G
    ensures ListedIn(G, ByTime(es))
  {
    var tm := ByTime(es);
    forall t, w, v | t in tm && 0 <= w < |tm[t]| && v in tm[t][w]
      ensures v in G
    {
      ByTimeIsActiveAt(es, t);
      ActiveAtMembers(es, t, tm[t][w]);
      var i :| 0 <= i < |es| && es[i].lo <= t <= es[i].hi && es[i].path == tm[t][w];
    }
  }

  /**
    For walks through a numbered graph whose intervals lie inside the TS columns, the cells
    genInputFile of POC/RandomWalksGenerator.py sets from the aggregate map are exactly the
    cells genInputFile of POC/BaselineApp3.py sets from the walks, and neither fill raises.
  */
  lemma {:induction false} AggregateFillIsCovered(G: Graph, es: seq<Timed>, agg: map<int, seq<set<Node>>>, lists: TimeMap, ts: nat)
    requires Numbered(G) && forall i, v :: 0 <= i < |es| && v in es[i].path ==> v in G
    requires InColumns(es, ts)
    requires Aggregates(G, ByTime(es), agg) && Enumerates(agg, lists)
    ensures TimeMapValid(lists, ts, |G|) && AllValid(es, |es|, |G|, ts)
    ensures forall a, b :: 0 <= b < ts ==>
      (TimeMapCovers(lists, ts, |G|, a, b) <==> CoveredBy(es, |es|, |G|, ts, a, b))
  {
    ByTimeListedIn(G, es);
    AggregateFillIsActive(G, ByTime(es), agg, lists, ts);
    ValidIsUnion(es, |G|, ts);
    forall a, b | 0 <= b < ts
      ensures TimeMapCovers(lists, ts, |G|, a, b) <==> CoveredBy(es, |es|, |G|, ts, a, b)
    {
      ColumnIsUnion(es, |G|, ts, a, b);
    }
  }

  /** On a numbered graph, no step of a time map listing its nodes makes aggregateRandomWalks raise. */
  lemma {:induction false} StepsValid(G: Graph, tm: TimeMap)
    requires Numbered(G) && ListedIn(G, tm)
    ensures forall t :: t in tm ==> ActiveGraphs.StepValid(G, tm[t])
  {
    forall t | t in tm
      ensures ActiveGraphs.StepValid(G, tm[t])
    {
      ActiveGraphs.ActiveSetIsVisited(G, tm[t]);
      var Z := ActiveGraphs.Zeros(ActiveGraphs.MaskRow(tm[t], |G|));
      assert forall v :: v in Z ==> 0 <= v < |G|;
    }
  }

  // ---------------------------------------------------------------- the pipeline

  /** `for node in walk` over a component: its nodes, each once, in some order. */
  method NodeList(c: set<Node>) returns (p: seq<Node>)
    ensures forall v :: v in p <==> v in c
  {
    p := [];
    var rest := c;
    while rest != {}
      invariant rest <= c
      invariant forall v :: v in p <==> v in c - rest
      decreases |rest|
    {
      ghost var some := PickOne(rest);
      var v :| v in rest;
      p := p + [v];
      rest := rest - {v};
    }
  }

  /** The components of one step as lists of their nodes. */
  method StepLists(cs: seq<set<Node>>) returns (ws: seq<seq<Node>>)
    ensures ListsOf(ws, cs)
  {
    ws := [];
    for i := 0 to |cs|
      invariant |ws| == i
      invariant forall k :: 0 <= k < i ==> forall v :: v in ws[k] <==> v in cs[k]
    {
      var p := NodeList(cs[i]);
      ws := ws + [p];
    }
  }

  /** Every component of the aggregate map as a list of its nodes. */
  method ComponentLists(agg: map<int, seq<set<Node>>>) returns (lists: TimeMap)
    ensures Enumerates(agg, lists)
  {
    lists := map[];
    var remaining := agg.Keys;
    while remaining != {}
      invariant remaining <= agg.Keys
      invariant lists.Keys == agg.Keys - remaining
      invariant forall t :: t in lists ==> ListsOf(lists[t], agg[t])
      decreases |remaining|
    {
      ghost var some := PickOne(remaining);
      var t :| t in remaining;
      var ws := StepLists(agg[t]);
      lists := lists[t := ws];
      remaining := remaining - {t};
    }
  }

  /**
    main of POC/RandomWalksGenerator.py from the stamped walks on: listByTime, then
    aggregateRandomWalks, then genInputFile with graphN the number of nodes of G and TS
    columns.  On a numbered graph with walks through it, only an unreadable interval string
    raises; the matrix holds 1 exactly where a walk listed at a step has a node, and, with every
    interval inside the columns, exactly where BaselineApp3.py's fill from the walks puts one.
  */
  method GenerateInput(walksMap: seq<Stamped>, G: Graph, ts: nat) returns (r: Result<array2<int>>)
    requires WellFormed(G) && Numbered(G)
    requires forall i, v :: 0 <= i < |walksMap| && v in walksMap[i].path ==> v in G
    ensures r.Ok? <==> ParseWalks(walksMap).Ok?
    ensures r.Ok? ==> fresh(r.value) && r.value.Length0 == |G| && r.value.Length1 == ts
    ensures r.Ok? ==> forall a, b :: 0 <= a < |G| && 0 <= b < ts ==>
      r.value[a, b] == if TimeMapCovers(ByTime(ParseWalks(walksMap).value), ts, |G|, a, b) then 1 else 0
    ensures r.Ok? && InColumns(ParseWalks(walksMap).value, ts) ==>
      HoldsCovered(r.value, ParseWalks(walksMap).value, |walksMap|, |G|, ts)
  {
    var timeMap := ListByTime(walksMap);
    if timeMap.Err? {
      return Err(timeMap.error);
    }
    ghost var es := ParseWalks(walksMap).value;
    assert forall i, v :: 0 <= i < |es| && v in es[i].path ==> v in G by {
      assert forall i :: 0 <= i < |es| ==> es[i].path == walksMap[i].path;
    }
    ByTimeListedIn(G, es);
    StepsValid(G, timeMap.value);
    var aggregateTimeMap := ActiveGraphs.AggregateRandomWalks(timeMap.value, G);
    if aggregateTimeMap.Err? {
      assert false;
      return Err(ValueError);
    }
    var lists := ComponentLists(aggregateTimeMap.value);
    AggregateFillIsActive(G, timeMap.value, aggregateTimeMap.value, lists, ts);
    r := FillFromTimeMap(lists, |G|, ts);
    if r.Ok? && InColumns(es, ts) {
      AggregateFillIsCovered(G, es, aggregateTimeMap.value, lists, ts);
      assert |es| == |walksMap|;
    }
  }
}
