/**
  The heavy-hitter labeller of heavy-hitter-app/starter.py: every edge of an undirected graph
  starts inactive (active = 0); the nodes are grouped by their heavy hitter, the most frequent
  value of a random stream drawn for each node; an edge becomes active (active = 1) when both
  of its ends fall in the same group.  The heavy hitter of each node is a given function hh.
*/
module HeavyHitters {
  import opened Wrappers
  import opened Graphs

  // ---------------------------------------------------------------- edges and labels

  /** An undirected edge, as the ordered pair of its ends: (u, v) and (v, u) name the same edge. */
  type Edge = (Node, Node)

  function Key(u: Node, v: Node): (e: Edge)
    ensures e.0 <= e.1
    ensures (e.0 == u && e.1 == v) || (e.0 == v && e.1 == u)
  {
    if u <= v then (u, v) else (v, u)
  }

  /** G.edges(): one key per undirected edge. */
  function Edges(adj: Graph): (es: set<Edge>)
    ensures forall u, v :: u in adj && v in adj[u] ==> Key(u, v) in es
    ensures forall e :: e in es ==> exists u, v :: u in adj && v in adj[u] && e == Key(u, v)
  {
    set u, v | u in adj && v in adj[u] :: Key(u, v)
  }

  /** The labels with every edge of S set to 1 and every other edge kept. */
  function Marked(labels: map<Edge, int>, S: set<Edge>): (r: map<Edge, int>)
    ensures r.Keys == labels.Keys
    ensures forall e :: e in r ==> r[e] == if e in S then 1 else labels[e]
  {
    map e | e in labels :: if e in S then 1 else labels[e]
  }

  /** Relabelling is cumulative: marking S and then T marks S + T. */
  lemma {:induction false} MarkedTwice(labels: map<Edge, int>, S: set<Edge>, T: set<Edge>)
    ensures Marked(Marked(labels, S), T) == Marked(labels, S + T)
  {
    var a := Marked(Marked(labels, S), T);
    var b := Marked(labels, S + T);
    assert a.Keys == b.Keys;
    forall e | e in a
      ensures a[e] == b[e]
    {
    }
  }

  /** after is before with some edges of S, and only of S, set to 1: the labels a raise leaves behind. */
  ghost predicate PartlyMarked(before: map<Edge, int>, after: map<Edge, int>, S: set<Edge>) {
    && after.Keys == before.Keys
    && forall e :: e in after ==> after[e] == before[e] || (after[e] == 1 && e in S)
  }

  // ---------------------------------------------------------------- GetNodesDict

  /** The nodes whose heavy hitter is k, in node order. */
  function Group(nodes: seq<Node>, hh: Node -> int, k: int): seq<Node>
    decreases |nodes|
  {
    if |nodes| == 0 then []
    else
      var n := nodes[|nodes| - 1];
      Group(nodes[..|nodes| - 1], hh, k) + (if hh(n) == k then [n] else [])
  }

  /** A node is in the group of k exactly when it is a node whose heavy hitter is k. */
  lemma {:induction false} GroupMembers(nodes: seq<Node>, hh: Node -> int, k: int, n: Node)
    ensures n in Group(nodes, hh, k) <==> n in nodes && hh(n) == k
    decreases |nodes|
  {
    if |nodes| > 0 {
      var init := nodes[..|nodes| - 1];
      GroupMembers(init, hh, k, n);
      assert nodes == init + [nodes[|nodes| - 1]];
    }
  }

  /**
    Each node is listed under its own heavy hitter as often as it occurs among the nodes, and
    under no other key: with distinct nodes, each one sits in exactly one list.
  */
  lemma {:induction false} GroupCount(nodes: seq<Node>, hh: Node -> int, k: int, n: Node)
    ensures multiset(Group(nodes, hh, k))[n] == if hh(n) == k then multiset(nodes)[n] else 0
    decreases |nodes|
  {
    if |nodes| > 0 {
      var init := nodes[..|nodes| - 1];
      GroupCount(init, hh, k, n);
      assert nodes == init + [nodes[|nodes| - 1]];
    }
  }

  /** Node order is kept: the group of k is the subsequence of the nodes whose heavy hitter is k. */
  lemma {:induction false} GroupOrder(nodes: seq<Node>, hh: Node -> int, k: int)
    ensures |Group(nodes, hh, k)| <= |nodes|
    ensures (forall i :: 0 <= i < |nodes| ==> hh(nodes[i]) == k) ==> Group(nodes, hh, k) == nodes
    ensures (forall i :: 0 <= i < |nodes| ==> hh(nodes[i]) != k) ==> Group(nodes, hh, k) == []
    decreases |nodes|
  {
    if |nodes| > 0 {
      var init := nodes[..|nodes| - 1];
      GroupOrder(init, hh, k);
      assert forall i :: 0 <= i < |init| ==> init[i] == nodes[i];
      assert nodes == init + [nodes[|nodes| - 1]];
    }
  }

  /** The group of one more node. */
  lemma {:induction false} GroupNext(nodes: seq<Node>, hh: Node -> int, k: int, i: nat)
    requires i < |nodes|
    ensures Group(nodes[..i + 1], hh, k) == Group(nodes[..i], hh, k) + (if hh(nodes[i]) == k then [nodes[i]] else [])
  {
    assert nodes[..i + 1][..i] == nodes[..i];
  }

  /** d is the dictionary GetNodesDict builds from the nodes. */
  ghost predicate IsNodesDict(nodes: seq<Node>, hh: Node -> int, d: map<int, seq<Node>>) {
    DictKeys(nodes, hh, d) && DictGroups(nodes, hh, d) && DictListed(nodes, hh, d)
  }

  /** The keys are the heavy hitters that occur. */
  ghost predicate DictKeys(nodes: seq<Node>, hh: Node -> int, d: map<int, seq<Node>>) {
    forall k :: k in d <==> exists i :: 0 <= i < |nodes| && hh(nodes[i]) == k
  }

  /** Each list is the group of its key. */
  ghost predicate DictGroups(nodes: seq<Node>, hh: Node -> int, d: map<int, seq<Node>>) {
    forall k :: k in d ==> d[k] == Group(nodes, hh, k)
  }

  /** Each listed node is a node whose heavy hitter is its key. */
  ghost predicate DictListed(nodes: seq<Node>, hh: Node -> int, d: map<int, seq<Node>>) {
    forall k, i :: k in d && 0 <= i < |d[k]| ==> d[k][i] in nodes && hh(d[k][i]) == k
  }

  /** The dictionary after one more setdefault/append. */
  function Appended(d: map<int, seq<Node>>, h: int, n: Node): map<int, seq<Node>> {
    d[h := (if h in d then d[h] else []) + [n]]
  }

  /** One more setdefault/append. */
  lemma {:induction false} NodesDictNext(nodes: seq<Node>, hh: Node -> int, i: nat, d: map<int, seq<Node>>)
    requires i < |nodes| && IsNodesDict(nodes[..i], hh, d)
    ensures IsNodesDict(nodes[..i + 1], hh, Appended(d, hh(nodes[i]), nodes[i]))
  {
    DictKeysNext(nodes, hh, i, d);
    DictGroupsNext(nodes, hh, i, d);
    DictListedNext(nodes, hh, i, d);
  }

  lemma {:induction false} DictKeysNext(nodes: seq<Node>, hh: Node -> int, i: nat, d: map<int, seq<Node>>)
    requires i < |nodes| && DictKeys(nodes[..i], hh, d)
    ensures DictKeys(nodes[..i + 1], hh, Appended(d, hh(nodes[i]), nodes[i]))
  {
    var h := hh(nodes[i]);
    var d' := Appended(d, h, nodes[i]);
    var pre := nodes[..i];
    var post := nodes[..i + 1];
    assert post == pre + [nodes[i]];
    forall k | exists j :: 0 <= j < |post| && hh(post[j]) == k
      ensures k in d'
    {
      var j :| 0 <= j < |post| && hh(post[j]) == k;
      if j < i {
        assert pre[j] == post[j];
      }
    }
    forall k | k in d'
      ensures exists j :: 0 <= j < |post| && hh(post[j]) == k
    {
      if k != h {
        var j :| 0 <= j < |pre| && hh(pre[j]) == k;
        assert post[j] == pre[j];
      } else {
        assert post[i] == nodes[i];
      }
    }
  }

  lemma {:induction false} DictGroupsNext(nodes: seq<Node>, hh: Node -> int, i: nat, d: map<int, seq<Node>>)
    requires i < |nodes| && DictKeys(nodes[..i], hh, d) && DictGroups(nodes[..i], hh, d)
    ensures DictGroups(nodes[..i + 1], hh, Appended(d, hh(nodes[i]), nodes[i]))
  {
    var h := hh(nodes[i]);
    var d' := Appended(d, h, nodes[i]);
    if h !in d {
      GroupOrder(nodes[..i], hh, h);
    }
    forall k | k in d'
      ensures d'[k] == Group(nodes[..i + 1], hh, k)
    {
      GroupNext(nodes, hh, k, i);
    }
  }

  lemma {:induction false} DictListedNext(nodes: seq<Node>, hh: Node -> int, i: nat, d: map<int, seq<Node>>)
    requires i < |nodes| && DictListed(nodes[..i], hh, d)
    ensures DictListed(nodes[..i + 1], hh, Appended(d, hh(nodes[i]), nodes[i]))
  {
    var h := hh(nodes[i]);
    var d' := Appended(d, h, nodes[i]);
    var pre := nodes[..i];
    var post := nodes[..i + 1];
    assert post == pre + [nodes[i]];
    forall k, j | k in d' && 0 <= j < |d'[k]|
      ensures d'[k][j] in post && hh(d'[k][j]) == k
    {
      if k != h || j < |d'[k]| - 1 {
        assert d'[k][j] == d[k][j];
        assert d[k][j] in pre;
      }
    }
  }

  /**
    GetNodesDict: nodeDict.setdefault(hh, []).append(node) for every node in order.  The keys
    are exactly the heavy hitters that occur, each list is the group of its key, and every
    listed node is a node whose heavy hitter is its key.
  */
  method GetNodesDict(nodes: seq<Node>, hh: Node -> int) returns (nodeDict: map<int, seq<Node>>)
    ensures forall k :: k in nodeDict <==> exists i :: 0 <= i < |nodes| && hh(nodes[i]) == k
    ensures forall k :: k in nodeDict ==> nodeDict[k] == Group(nodes, hh, k)
    ensures forall k, i :: k in nodeDict && 0 <= i < |nodeDict[k]| ==> nodeDict[k][i] in nodes && hh(nodeDict[k][i]) == k
  {
    nodeDict := map[];
    for i := 0 to |nodes|
      invariant IsNodesDict(nodes[..i], hh, nodeDict)
    {
      var node := nodes[i];
      var heavyHitter := hh(node);
      NodesDictNext(nodes, hh, i, nodeDict);
      var list := if heavyHitter in nodeDict then nodeDict[heavyHitter] else [];
      nodeDict := nodeDict[heavyHitter := list + [node]];
    }
    assert nodes[..|nodes|] == nodes;
  }

  // ---------------------------------------------------------------- labelActivePaths

  /** The edges node-neighbour with the neighbour in the group. */
  function NeighbourEdges(adj: Graph, node: Node, group: seq<Node>): (S: set<Edge>)
    requires node in adj
    ensures forall e :: e in S <==> exists v :: v in adj[node] && v in group && e == Key(node, v)
  {
    set v | v in adj[node] && v in group :: Key(node, v)
  }

  /** The edges of G with both ends among the first i nodes of the group and the group. */
  ghost function GroupEdges(adj: Graph, group: seq<Node>, i: nat): (S: set<Edge>)
    requires i <= |group|
  {
    set u, v | u in group[..i] && u in adj && v in adj[u] && v in group :: Key(u, v)
  }

  /** The edges labelActivePaths relabels: both ends in the list of one heavy hitter. */
  ghost function JoinedEdges(adj: Graph, nodeDict: map<int, seq<Node>>, keys: set<int>): (S: set<Edge>)
  {
    set k, u, v | k in keys && k in nodeDict && u in nodeDict[k] && u in adj && v in adj[u] && v in nodeDict[k] :: Key(u, v)
  }

  lemma {:induction false} GroupEdgesNext(adj: Graph, group: seq<Node>, i: nat)
    requires i < |group| && group[i] in adj
    ensures GroupEdges(adj, group, i + 1) == GroupEdges(adj, group, i) + NeighbourEdges(adj, group[i], group)
  {
    var A := GroupEdges(adj, group, i + 1);
    var B := GroupEdges(adj, group, i) + NeighbourEdges(adj, group[i], group);
    assert group[..i + 1] == group[..i] + [group[i]];
    forall e | e in A
      ensures e in B
    {
      var u, v :| u in group[..i + 1] && u in adj && v in adj[u] && v in group && e == Key(u, v);
      if u != group[i] {
        assert u in group[..i];
      }
    }
    forall e | e in B
      ensures e in A
    {
      if e !in NeighbourEdges(adj, group[i], group) {
        var u, v :| u in group[..i] && u in adj && v in adj[u] && v in group && e == Key(u, v);
        assert u in group[..i + 1];
      } else {
        var v :| v in adj[group[i]] && v in group && e == Key(group[i], v);
        assert group[i] in group[..i + 1];
      }
    }
  }

  lemma {:induction false} JoinedEdgesNext(adj: Graph, nodeDict: map<int, seq<Node>>, keys: set<int>, k: int)
    requires k in nodeDict
    ensures JoinedEdges(adj, nodeDict, keys + {k}) == JoinedEdges(adj, nodeDict, keys) + GroupEdges(adj, nodeDict[k], |nodeDict[k]|)
  {
    var group := nodeDict[k];
    assert group[..|group|] == group;
    var A := JoinedEdges(adj, nodeDict, keys + {k});
    var B := JoinedEdges(adj, nodeDict, keys) + GroupEdges(adj, group, |group|);
    forall e | e in A
      ensures e in B
    {
      var k', u, v :| k' in keys + {k} && k' in nodeDict && u in nodeDict[k'] && u in adj && v in adj[u] && v in nodeDict[k'] && e == Key(u, v);
      if k' != k {
        assert e in JoinedEdges(adj, nodeDict, keys);
      }
    }
  }

  /** The inner loop: for neighbor in G.neighbors(node): if neighbor in group, mark the edge. */
  method MarkNeighbours(adj: Graph, labels: map<Edge, int>, node: Node, group: seq<Node>) returns (out: map<Edge, int>)
    requires node in adj && Edges(adj) <= labels.Keys
    ensures out == Marked(labels, NeighbourEdges(adj, node, group))
  {
    out := labels;
    ghost var done: set<Edge> := {};
    var neighbours := adj[node];
    for j := 0 to |neighbours|
      invariant done == set v | v in neighbours[..j] && v in group :: Key(node, v)
      invariant out == Marked(labels, done)
    {
      var neighbor := neighbours[j];
      assert neighbours[..j + 1] == neighbours[..j] + [neighbor];
      if neighbor in group {
        assert Key(node, neighbor) in labels;
        MarkedTwice(labels, done, {Key(node, neighbor)});
        out := out[Key(node, neighbor) := 1];
        assert out == Marked(Marked(labels, done), {Key(node, neighbor)});
        done := done + {Key(node, neighbor)};
      }
    }
    assert neighbours[..|neighbours|] == neighbours;
  }

  /**
    The middle loop over the nodes of one group; G.neighbors raises on a node that is not in
    the graph, leaving the edges marked so far.
  */
  method MarkGroup(adj: Graph, labels: map<Edge, int>, group: seq<Node>) returns (out: map<Edge, int>, err: Option<Error>)
    requires Edges(adj) <= labels.Keys
    ensures err.None? <==> forall i :: 0 <= i < |group| ==> group[i] in adj
    ensures err.Some? ==> exists i :: 0 <= i < |group| && group[i] !in adj && err.value == UnknownNode(group[i])
    ensures err.None? ==> out == Marked(labels, GroupEdges(adj, group, |group|))
    ensures err.Some? ==> PartlyMarked(labels, out, GroupEdges(adj, group, |group|))
  {
    out := labels;
    for i := 0 to |group|
      invariant forall i' :: 0 <= i' < i ==> group[i'] in adj
      invariant out == Marked(labels, GroupEdges(adj, group, i))
    {
      var node := group[i];
      if node !in adj {
        GroupEdgesGrow(adj, group, i);
        return out, Some(UnknownNode(node));
      }
      out := MarkNeighbours(adj, out, node, group);
      GroupEdgesNext(adj, group, i);
      MarkedTwice(labels, GroupEdges(adj, group, i), NeighbourEdges(adj, node, group));
    }
    return out, None;
  }

  /** The edges of a prefix of the group are edges of the whole group. */
  lemma {:induction false} GroupEdgesGrow(adj: Graph, group: seq<Node>, i: nat)
    requires i <= |group|
    ensures GroupEdges(adj, group, i) <= GroupEdges(adj, group, |group|)
  {
    forall e | e in GroupEdges(adj, group, i)
      ensures e in GroupEdges(adj, group, |group|)
    {
      var u, v :| u in group[..i] && u in adj && v in adj[u] && v in group && e == Key(u, v);
      assert u in group[..|group|];
    }
  }

  lemma {:induction false} JoinedEdgesGrow(adj: Graph, nodeDict: map<int, seq<Node>>, keys: set<int>)
    ensures JoinedEdges(adj, nodeDict, keys) <= JoinedEdges(adj, nodeDict, nodeDict.Keys)
  {
  }

  /** The nodes under every heavy hitter are nodes of G. */
  ghost predicate Known(adj: Graph, nodeDict: map<int, seq<Node>>) {
    forall k, i :: k in nodeDict && 0 <= i < |nodeDict[k]| ==> nodeDict[k][i] in adj
  }

  /** The loop of genSampleGraph: label every edge 0. */
  method ZeroLabels(edges: set<Edge>) returns (labels: map<Edge, int>)
    ensures labels.Keys == edges
    ensures forall e :: e in labels ==> labels[e] == 0
  {
    labels := map[];
    var todo := edges;
    while todo != {}
      invariant todo <= edges
      invariant labels.Keys == edges - todo
      invariant forall e :: e in labels ==> labels[e] == 0
      decreases todo
    {
      ghost var some := PickOne(todo);
      var e :| e in todo;
      labels := labels[e := 0];
      todo := todo - {e};
    }
  }

  /** A networkx undirected graph whose edges carry the attribute 'active'. */
  class LabelledGraph {
    var adj: Graph
    var active: map<Edge, int>

    /** Every edge, and nothing else, carries a label, which is 0 or 1. */
    ghost predicate Valid()
      reads this
    {
      && WellFormed(adj)
      && active.Keys == Edges(adj)
      && forall e :: e in active ==> active[e] == 0 || active[e] == 1
    }

    /** genSampleGraph: the graph g with G.edges[u, v]['active'] = 0 for every edge. */
    constructor (g: Graph)
      requires WellFormed(g)
      ensures Valid() && adj == g
      ensures forall e :: e in active ==> active[e] == 0
    {
      var labels := ZeroLabels(Edges(g));
      adj := g;
      active := labels;
    }

    /**
      labelActivePaths: for every heavy hitter key, every node listed under it and every
      neighbour of that node, set active = 1 on the edge when the neighbour is listed under the
      same key.  Only existing edges are relabelled.  A listed node that is not in the graph
      raises in G.neighbors, after the edges of the keys visited before it are marked.
    */
    method LabelActivePaths(nodeDict: map<int, seq<Node>>) returns (r: Option<Error>)
      requires Valid()
      modifies this
      ensures Valid() && adj == old(adj) && active.Keys == old(active).Keys
      ensures r.None? <==> Known(adj, nodeDict)
      ensures r.Some? ==> exists k, i :: k in nodeDict && 0 <= i < |nodeDict[k]| && nodeDict[k][i] !in adj && r.value == UnknownNode(nodeDict[k][i])
      ensures r.None? ==> active == Marked(old(active), JoinedEdges(adj, nodeDict, nodeDict.Keys))
      ensures r.Some? ==> PartlyMarked(old(active), active, JoinedEdges(adj, nodeDict, nodeDict.Keys))
    {
      var labels;
      labels, r := LabelEdges(adj, active, nodeDict);
      active := labels;
    }
  }

  /**
    The two outer loops of labelActivePaths on the edge labels: for every heavy hitter key, in
    whatever order the dictionary yields them, mark the edges of its list.
  */
  method LabelEdges(adj: Graph, labels: map<Edge, int>, nodeDict: map<int, seq<Node>>) returns (out: map<Edge, int>, r: Option<Error>)
    requires Edges(adj) <= labels.Keys
    ensures r.None? <==> Known(adj, nodeDict)
    ensures r.Some? ==> exists k, i :: k in nodeDict && 0 <= i < |nodeDict[k]| && nodeDict[k][i] !in adj && r.value == UnknownNode(nodeDict[k][i])
    ensures r.None? ==> out == Marked(labels, JoinedEdges(adj, nodeDict, nodeDict.Keys))
    ensures r.Some? ==> PartlyMarked(labels, out, JoinedEdges(adj, nodeDict, nodeDict.Keys))
  {
    out := labels;
    var keys := nodeDict.Keys;
    ghost var done: set<int> := {};
    while keys != {}
      invariant keys <= nodeDict.Keys && done == nodeDict.Keys - keys
      invariant forall k, i :: k in done && 0 <= i < |nodeDict[k]| ==> nodeDict[k][i] in adj
      invariant out == Marked(labels, JoinedEdges(adj, nodeDict, done))
      decreases keys
    {
      ghost var some := PickOne(keys);
      var key :| key in keys;
      var next, err := MarkGroup(adj, out, nodeDict[key]);
      JoinedEdgesNext(adj, nodeDict, done, key);
      if err.Some? {
        JoinedEdgesGrow(adj, nodeDict, done + {key});
        return next, err;
      }
      MarkedTwice(labels, JoinedEdges(adj, nodeDict, done), GroupEdges(adj, nodeDict[key], |nodeDict[key]|));
      out := next;
      keys := keys - {key};
      done := done + {key};
    }
    assert done == nodeDict.Keys;
    return out, None;
  }

  // ---------------------------------------------------------------- what labelling promises

  /**
    With the groups of GetNodesDict over all the nodes of G, an edge is relabelled exactly when
    its two ends have the same heavy hitter.
  */
  lemma {:induction false} JoinedIffSameHeavyHitter(adj: Graph, nodes: seq<Node>, hh: Node -> int,
                                                    nodeDict: map<int, seq<Node>>, u: Node, v: Node)
    requires forall n :: n in adj <==> n in nodes
    requires IsNodesDict(nodes, hh, nodeDict)
    requires u in adj && v in adj[u] && v in adj
    ensures Key(u, v) in JoinedEdges(adj, nodeDict, nodeDict.Keys) <==> hh(u) == hh(v)
  {
    if hh(u) == hh(v) {
      var k := hh(u);
      var i :| 0 <= i < |nodes| && nodes[i] == u;
      assert k in nodeDict;
      GroupMembers(nodes, hh, k, u);
      GroupMembers(nodes, hh, k, v);
      assert Key(u, v) in JoinedEdges(adj, nodeDict, nodeDict.Keys);
    }
    if Key(u, v) in JoinedEdges(adj, nodeDict, nodeDict.Keys) {
      var k, a, b :| k in nodeDict && a in nodeDict[k] && a in adj && b in adj[a] && b in nodeDict[k] && Key(u, v) == Key(a, b);
      GroupMembers(nodes, hh, k, a);
      GroupMembers(nodes, hh, k, b);
    }
  }

  /**
    Labelling all-inactive edges with the groups of GetNodesDict over all the nodes of G: an edge
    ends up active exactly when its ends share a heavy hitter, and inactive otherwise.
  */
  lemma {:induction false} LabelledIffSameHeavyHitter(adj: Graph, nodes: seq<Node>, hh: Node -> int,
                                                      nodeDict: map<int, seq<Node>>, labels: map<Edge, int>)
    requires WellFormed(adj) && forall n :: n in adj <==> n in nodes
    requires IsNodesDict(nodes, hh, nodeDict)
    requires Edges(adj) <= labels.Keys && forall e :: e in labels ==> labels[e] == 0
    ensures forall u, v :: u in adj && v in adj[u] ==>
      Marked(labels, JoinedEdges(adj, nodeDict, nodeDict.Keys))[Key(u, v)] == if hh(u) == hh(v) then 1 else 0
  {
    forall u, v | u in adj && v in adj[u]
      ensures Marked(labels, JoinedEdges(adj, nodeDict, nodeDict.Keys))[Key(u, v)] == if hh(u) == hh(v) then 1 else 0
    {
      LabelledEdge(adj, nodes, hh, nodeDict, labels, JoinedEdges(adj, nodeDict, nodeDict.Keys), u, v);
    }
  }

  /** One edge of LabelledIffSameHeavyHitter. */
  lemma {:induction false} LabelledEdge(adj: Graph, nodes: seq<Node>, hh: Node -> int, nodeDict: map<int, seq<Node>>,
                                      labels: map<Edge, int>, J: set<Edge>, u: Node, v: Node)
    requires WellFormed(adj) && forall n :: n in adj <==> n in nodes
    requires IsNodesDict(nodes, hh, nodeDict) && J == JoinedEdges(adj, nodeDict, nodeDict.Keys)
    requires Edges(adj) <= labels.Keys && forall e :: e in labels ==> labels[e] == 0
    requires u in adj && v in adj[u]
    ensures Key(u, v) in labels
    ensures Marked(labels, J)[Key(u, v)] == if hh(u) == hh(v) then 1 else 0
  {
    assert Key(u, v) in Edges(adj);
    assert v in adj;
    JoinedIffSameHeavyHitter(adj, nodes, hh, nodeDict, u, v);
  }

  /**
    main without the stream, the plot and the printing: build the sample graph with every edge
    inactive, group its nodes by heavy hitter and label.  Afterwards an edge is active exactly
    when its ends share a heavy hitter, no edge is added and nothing raises.
  */
  method LabelSampleGraph(g: Graph, nodes: seq<Node>, hh: Node -> int) returns (G: LabelledGraph, r: Option<Error>)
    requires WellFormed(g) && forall n :: n in g <==> n in nodes
    ensures fresh(G) && G.Valid() && G.adj == g && G.active.Keys == Edges(g) && r.None?
    ensures forall u, v :: u in g && v in g[u] ==> G.active[Key(u, v)] == if hh(u) == hh(v) then 1 else 0
  {
    G := new LabelledGraph(g);
    var nodeDict := GetNodesDict(nodes, hh);
    assert IsNodesDict(nodes, hh, nodeDict);
    ghost var before := G.active;
    r := G.LabelActivePaths(nodeDict);
    LabelledIffSameHeavyHitter(g, nodes, hh, nodeDict, before);
  }

  // ---------------------------------------------------------------- genRandomStream

  /** random.randint(lo, hi) driven by the draw d. */
  function RandInt(lo: int, hi: int, d: nat): (r: int)
    requires lo <= hi
    ensures lo <= r <= hi
  {
    lo + d % (hi - lo + 1)
  }

  /** genRandomStream(n): n draws of random.randint(0, 9). */
  function GenRandomStream(n: nat, draws: nat -> nat): (r: seq<int>)
    ensures |r| == n
    ensures forall i :: 0 <= i < n ==> 0 <= r[i] <= 9
  {
    var stream := seq(n, i requires 0 <= i => RandInt(0, 9, draws(i)));
    assert forall i :: 0 <= i < n ==> stream[i] == RandInt(0, 9, draws(i));
    stream
  }
}
