/**
  The incremental scheme of POC/FindActivePathsImproved.py.  Between two time steps the active
  set changes by three disjoint sets: the stable nodes (active at both steps), the deactivated
  ones and the newly active ones.  A maintainer keeps the previous step's components, removes
  the deactivated nodes (splitting the components they leave behind) and adds the newly active
  ones (merging the components they touch).  The docstring asks whether this is correct: here
  the answer is proved, the maintained components being the naive finder's for every step.
*/
module Incremental {
  import opened Wrappers
  import opened Graphs
  import FindActivePaths

  // ---------------------------------------------------------------- the three delta sets

  /** setA: active at both steps. */
  function Stable(prev: set<Node>, curr: set<Node>): set<Node> {
    prev * curr
  }

  /** setB: active at t - 1 and no longer at t. */
  function Deactivated(prev: set<Node>, curr: set<Node>): set<Node> {
    prev - Stable(prev, curr)
  }

  /** setC: active at t and not at t - 1. */
  function NewlyActive(prev: set<Node>, curr: set<Node>): set<Node> {
    curr - Stable(prev, curr)
  }

  /** The three sets split the two active sets without overlap. */
  lemma {:induction false} DeltaSets(prev: set<Node>, curr: set<Node>)
    ensures Stable(prev, curr) !! Deactivated(prev, curr)
    ensures Stable(prev, curr) !! NewlyActive(prev, curr)
    ensures Deactivated(prev, curr) !! NewlyActive(prev, curr)
    ensures Stable(prev, curr) + Deactivated(prev, curr) == prev
    ensures Stable(prev, curr) + NewlyActive(prev, curr) == curr
    ensures Deactivated(prev, curr) == prev - curr && NewlyActive(prev, curr) == curr - prev
  {
  }

  // ---------------------------------------------------------------- split and merge facts

  /**
    A component of what survives of a component D is a component of the whole surviving active
    set: D was closed, so nothing outside it can be a neighbour.
  */
  lemma {:induction false} SubComponentLifts(G: Graph, A: set<Node>, survivors: set<Node>, D: set<Node>, C: set<Node>)
    requires IsComponent(G, A, D) && survivors <= A && IsComponent(G, D * survivors, C)
    ensures IsComponent(G, survivors, C)
  {
    forall x, y | x in C && x in G && y in G[x] && y in survivors
      ensures y in C
    {
      assert x in D && y in A;
    }
  }

  /** N is adjacent to the component D: some node of N has a neighbour in D. */
  predicate Touches(G: Graph, N: set<Node>, D: set<Node>) {
    exists x, y :: x in N && x in G && y in D && y in G[x]
  }

  /** The nodes of a set of components. */
  function Union(P: set<set<Node>>): (u: set<Node>)
    ensures forall x :: x in u <==> exists D :: D in P && x in D
  {
    set D, x | D in P && x in D :: x
  }

  /** The components of P that N touches. */
  function Touching(G: Graph, N: set<Node>, P: set<set<Node>>): set<set<Node>> {
    set D | D in P && Touches(G, N, D)
  }

  /** N merged with every component of P it touches; the other components unchanged. */
  function MergeInto(G: Graph, N: set<Node>, P: set<set<Node>>): set<set<Node>> {
    (P - Touching(G, N, P)) + {N + Union(Touching(G, N, P))}
  }

  /** Every set of P lies inside some set of Q: Q is P with some sets merged. */
  ghost predicate NestsIn(P: set<set<Node>>, Q: set<set<Node>>) {
    forall C :: C in P ==> exists D :: D in Q && C <= D
  }

  /** Merging is transitive. */
  lemma {:induction false} NestsTrans(P: set<set<Node>>, Q: set<set<Node>>, R: set<set<Node>>)
    requires NestsIn(P, Q) && NestsIn(Q, R)
    ensures NestsIn(P, R)
  {
    forall C | C in P
      ensures exists E :: E in R && C <= E
    {
      var D :| D in Q && C <= D;
      var E :| E in R && D <= E;
    }
  }

  /**
    Adding a connected set N of fresh nodes to a partition: the components N touches merge
    with N into one, the others stay as they are, and the result is the partition of A + N.
  */
  lemma {:induction false} MergeStep(G: Graph, A: set<Node>, P: set<set<Node>>, N: set<Node>)
    requires WellFormed(G) && IsPartition(G, A, P)
    requires N != {} && N !! A && Connected(G, N)
    ensures IsPartition(G, A + N, MergeInto(G, N, P))
    ensures NestsIn(P, MergeInto(G, N, P))
  {
    var T := Touching(G, N, P);
    var M := N + Union(T);
    var Q := MergeInto(G, N, P);
    assert Q == (P - T) + {M};
    MergedClosed(G, A, P, N);
    MergedConnected(G, A, P, N);
    forall D | D in P - T
      ensures IsComponent(G, A + N, D)
    {
      UntouchedStays(G, A, P, N, D);
    }
    MergeCovers(G, A, P, N);
    CoverIsPartition(G, A + N, Q);
    MergeNests(G, P, N);
  }

  /** Every node of A + N lies in a member of the merged partition. */
  lemma {:induction false} MergeCovers(G: Graph, A: set<Node>, P: set<set<Node>>, N: set<Node>)
    requires forall x :: x in A ==> exists C :: C in P && x in C
    ensures forall x :: x in A + N ==> exists C :: C in MergeInto(G, N, P) && x in C
  {
    var T := Touching(G, N, P);
    var M := N + Union(T);
    var Q := MergeInto(G, N, P);
    assert Q == (P - T) + {M};
    forall x | x in A + N
      ensures exists C :: C in Q && x in C
    {
      if x in A {
        var E :| E in P && x in E;
        if E in T {
          assert x in M;
        } else {
          assert E in Q;
        }
      } else {
        assert x in M;
      }
    }
  }

  /** Merging only ever puts a component inside a bigger one. */
  lemma {:induction false} MergeNests(G: Graph, P: set<set<Node>>, N: set<Node>)
    ensures NestsIn(P, MergeInto(G, N, P))
  {
    var T := Touching(G, N, P);
    var M := N + Union(T);
    var Q := MergeInto(G, N, P);
    assert Q == (P - T) + {M};
    forall C | C in P
      ensures exists D :: D in Q && C <= D
    {
      if C in T {
        assert C <= M;
      } else {
        assert C in Q;
      }
    }
  }

  /** The merged set is closed: a neighbour of N or of a touched component is merged too. */
  lemma {:induction false} MergedClosed(G: Graph, A: set<Node>, P: set<set<Node>>, N: set<Node>)
    requires WellFormed(G) && IsPartition(G, A, P)
    ensures Closed(G, A + N, N + Union(Touching(G, N, P)))
  {
    var T := Touching(G, N, P);
    var M := N + Union(T);
    forall x, y | x in M && x in G && y in G[x] && y in A + N
      ensures y in M
    {
      if y !in N {
        var E :| E in P && y in E;
        if x in N {
          assert Touches(G, N, E);
          assert E in T;
        } else {
          var D :| D in T && x in D;
          assert IsComponent(G, A, D);
          assert y in D;
        }
      }
    }
  }

  /** The merged set is connected: every touched component hangs on N by an edge. */
  lemma {:induction false} MergedConnected(G: Graph, A: set<Node>, P: set<set<Node>>, N: set<Node>)
    requires WellFormed(G) && IsPartition(G, A, P)
    requires N != {} && Connected(G, N)
    ensures Connected(G, N + Union(Touching(G, N, P)))
  {
    var T := Touching(G, N, P);
    var M := N + Union(T);
    var r := PickOne(N);
    forall z | z in M
      ensures ReachIn(G, M, r, z)
    {
      if z in N {
        assert ReachIn(G, N, r, z);
        ReachWiden(G, N, M, r, z);
      } else {
        var D :| D in T && z in D;
        assert Touches(G, N, D);
        var x, y :| x in N && x in G && y in D && y in G[x];
        assert ReachIn(G, N, r, x);
        ReachWiden(G, N, M, r, x);
        ReachEdge(G, M, x, y);
        assert IsComponent(G, A, D);
        assert ReachIn(G, D, y, z);
        ReachWiden(G, D, M, y, z);
        ReachTrans(G, M, r, x, y);
        ReachTrans(G, M, r, y, z);
      }
    }
    RootedConnected(G, M, r);
  }

  /** A component that N does not touch stays closed once N is active. */
  lemma {:induction false} UntouchedStays(G: Graph, A: set<Node>, P: set<set<Node>>, N: set<Node>, D: set<Node>)
    requires WellFormed(G) && IsPartition(G, A, P) && D in P && !Touches(G, N, D)
    ensures IsComponent(G, A + N, D)
  {
    forall x, y | x in D && x in G && y in G[x] && y in A + N
      ensures y in D
    {
      assert y !in N;
    }
  }

  /**
    The removal loop's invariant: every component built so far is a component of the
    survivors inside an already processed old component, the survivors are covered by the
    pending old components and the built ones, and an untouched processed component is kept.
  */
  ghost predicate SplitSoFar(G: Graph, survivors: set<Node>, setB: set<Node>, comps: set<set<Node>>,
                             pending: set<set<Node>>, result: set<set<Node>>) {
    && pending <= comps
    && (forall C :: C in result ==>
         IsComponent(G, survivors, C) && exists D :: D in comps && D !in pending && C <= D)
    && (forall x :: x in survivors ==>
         (exists D :: D in pending && x in D) || (exists C :: C in result && x in C))
    && (forall D :: D in comps && D !in pending && D !! setB ==> D in result)
  }

  /** An old component that loses nothing is kept as it is. */
  lemma {:induction false} SplitKeep(G: Graph, A: set<Node>, setB: set<Node>, comps: set<set<Node>>,
                  pending: set<set<Node>>, result: set<set<Node>>, D: set<Node>)
    requires IsPartition(G, A, comps) && setB <= A
    requires SplitSoFar(G, A - setB, setB, comps, pending, result) && D in pending && D !! setB
    ensures SplitSoFar(G, A - setB, setB, comps, pending - {D}, result + {D})
  {
    assert D * (A - setB) == D;
    SubComponentLifts(G, A, A - setB, D, D);
  }

  /** An old component that loses nodes is replaced by the components of what is left of it. */
  lemma {:induction false} SplitPieces(G: Graph, A: set<Node>, setB: set<Node>, comps: set<set<Node>>,
                    pending: set<set<Node>>, result: set<set<Node>>, D: set<Node>, cs: seq<set<Node>>)
    requires IsPartition(G, A, comps) && setB <= A
    requires SplitSoFar(G, A - setB, setB, comps, pending, result) && D in pending && !(D !! setB)
    requires IsComponentList(G, D - setB, cs)
    ensures SplitSoFar(G, A - setB, setB, comps, pending - {D}, result + Elements(cs))
  {
    var survivors := A - setB;
    assert D - setB == D * survivors;
    var split := Elements(cs);
    ListIsPartition(G, D - setB, cs);
    forall C | C in split
      ensures IsComponent(G, survivors, C) && C <= D
    {
      SubComponentLifts(G, A, survivors, D, C);
    }
    forall x | x in survivors
      ensures (exists E :: E in pending - {D} && x in E) || (exists C :: C in result + split && x in C)
    {
      if x in D {
        assert x in D - setB;
        var C :| C in split && x in C;
        assert C in result + split;
      }
    }
  }

  /** Once every old component is processed the built components are the survivors' partition. */
  lemma {:induction false} SplitDone(G: Graph, survivors: set<Node>, setB: set<Node>, comps: set<set<Node>>, result: set<set<Node>>)
    requires SplitSoFar(G, survivors, setB, comps, {}, result)
    ensures IsPartition(G, survivors, result)
    ensures forall C :: C in result ==> exists D :: D in comps && C <= D
    ensures forall D :: D in comps && D !! setB ==> D in result
  {
    CoverIsPartition(G, survivors, result);
  }

  /**
    The removal phase on values: the components of A after the nodes setB are deactivated.
    A component that loses nothing is kept; one that loses nodes is replaced by the naive
    finder's components of what is left of it.
  */
  method SplitComponents(G: Graph, A: set<Node>, comps: set<set<Node>>, setB: set<Node>)
    returns (result: set<set<Node>>)
    requires WellFormed(G) && A <= G.Keys && IsPartition(G, A, comps) && setB <= A
    ensures IsPartition(G, A - setB, result)
    ensures NestsIn(result, comps)
    ensures forall D :: D in comps && D !! setB ==> D in result
  {
    var pending := comps;
    result := {};
    while pending != {}
      invariant SplitSoFar(G, A - setB, setB, comps, pending, result)
      decreases pending
    {
      ghost var someComponent := PickOne(pending);
      var D :| D in pending;
      if D !! setB {
        SplitKeep(G, A, setB, comps, pending, result, D);
        result := result + {D};
      } else {
        var pieces := FindActivePaths.FindActiveComponents(G, D - setB);
        if pieces.Err? {
          assert false;
        }
        SplitPieces(G, A, setB, comps, pending, result, D, pieces.value);
        result := result + Elements(pieces.value);
      }
      pending := pending - {D};
    }
    SplitDone(G, A - setB, setB, comps, result);
  }

  /**
    The addition phase on values: the components of A + setC.  The components of setC alone
    come from the naive finder; each is merged with every existing component it touches.
  */
  method MergeComponents(G: Graph, A: set<Node>, comps: set<set<Node>>, setC: set<Node>)
    returns (result: set<set<Node>>)
    requires WellFormed(G) && IsPartition(G, A, comps) && setC <= G.Keys && setC !! A
    ensures IsPartition(G, A + setC, result)
    ensures NestsIn(comps, result)
  {
    var found := FindActivePaths.FindActiveComponents(G, setC);
    if found.Err? {
      assert false;
    }
    var pieces := found.value;
    var active := A;
    // the newly active nodes merged so far
    ghost var added: set<Node> := {};
    result := comps;
    for i := 0 to |pieces|
      invariant MergedSoFar(G, A, comps, setC, pieces, i, active, added, result)
    {
      var N := pieces[i];
      MergeAdvance(G, A, comps, setC, pieces, i, active, added, result);
      result := MergeInto(G, N, result);
      active := active + N;
      added := added + N;
    }
    MergeDone(G, A, comps, setC, pieces, active, added, result);
  }

  /** The invariant of the addition loop after the first i components of setC are merged. */
  ghost predicate MergedSoFar(G: Graph, A: set<Node>, comps: set<set<Node>>, setC: set<Node>,
                              pieces: seq<set<Node>>, i: int, active: set<Node>, added: set<Node>,
                              result: set<set<Node>>)
  {
    && WellFormed(G) && IsComponentList(G, setC, pieces) && 0 <= i <= |pieces|
    && IsPartition(G, active, result)
    && active == A + added && added <= setC
    && (forall j :: 0 <= j < i ==> pieces[j] <= added)
    && (forall j :: i <= j < |pieces| ==> pieces[j] !! active)
    && NestsIn(comps, result)
  }

  /** Merging one more component of setC keeps the invariant. */
  lemma {:induction false} MergeAdvance(G: Graph, A: set<Node>, comps: set<set<Node>>, setC: set<Node>,
                                      pieces: seq<set<Node>>, i: int, active: set<Node>, added: set<Node>,
                                      result: set<set<Node>>)
    requires MergedSoFar(G, A, comps, setC, pieces, i, active, added, result) && i < |pieces|
    ensures MergedSoFar(G, A, comps, setC, pieces, i + 1, active + pieces[i], added + pieces[i],
                        MergeInto(G, pieces[i], result))
  {
    var N := pieces[i];
    assert IsComponent(G, setC, N);
    MergeStep(G, active, result, N);
    NestsTrans(comps, result, MergeInto(G, N, result));
    forall j | i < j < |pieces|
      ensures pieces[j] !! N
    {
      assert pieces[i] !! pieces[j];
    }
  }

  /** After the last component of setC, every node of setC is active. */
  lemma {:induction false} MergeDone(G: Graph, A: set<Node>, comps: set<set<Node>>, setC: set<Node>,
                                   pieces: seq<set<Node>>, active: set<Node>, added: set<Node>,
                                   result: set<set<Node>>)
    requires MergedSoFar(G, A, comps, setC, pieces, |pieces|, active, added, result)
    ensures IsPartition(G, A + setC, result) && NestsIn(comps, result)
  {
    forall x | x in setC
      ensures x in added
    {
      var j :| 0 <= j < |pieces| && x in pieces[j];
    }
  }

  // ---------------------------------------------------------------- the maintainer

  /**
    The carried state of the scheme: activeNodes_t-1 and activeComponents_t-1.  The deltas are
    applied in place: first the removal phase, then the addition phase.
  */
  class ComponentMaintainer {
    const G: Graph
    var activeNodes: set<Node>
    var components: set<set<Node>>

    /** The components are exactly the partition of the active set. */
    ghost predicate Valid()
      reads this
    {
      WellFormed(G) && activeNodes <= G.Keys && IsPartition(G, activeNodes, components)
    }

    /** The docstring's initial state: no active nodes, no components. */
    constructor (g: Graph)
      requires WellFormed(g)
      ensures Valid() && G == g && activeNodes == {} && components == {}
    {
      G := g;
      activeNodes := {};
      components := {};
    }

    /**
      Remove the deactivated nodes setB and readjust: a component that loses nodes is replaced
      by the components of what is left of it (possibly several, possibly none).
    */
    method RemoveDeactivated(setB: set<Node>)
      requires Valid() && setB <= activeNodes
      modifies this
      ensures Valid() && activeNodes == old(activeNodes) - setB
      ensures NestsIn(components, old(components))
      ensures forall D :: D in old(components) && D !! setB ==> D in components
    {
      components := SplitComponents(G, activeNodes, components, setB);
      activeNodes := activeNodes - setB;
    }

    /**
      Add the newly active nodes setC: compute the components of setC alone, then merge each of
      them with the existing components it touches.
    */
    method AddNewlyActive(setC: set<Node>)
      requires Valid() && setC <= G.Keys && setC !! activeNodes
      modifies this
      ensures Valid() && activeNodes == old(activeNodes) + setC
      ensures NestsIn(old(components), components)
    {
      components := MergeComponents(G, activeNodes, components, setC);
      activeNodes := activeNodes + setC;
    }

    /**
      One time step: compute the three delta sets against the new active set curr, then
      remove and add.  An active node the graph does not hold is refused, as the naive finder
      fails on it.  On success the components are those of the naive finder, as a set of sets.
    */
    method Advance(curr: set<Node>) returns (r: Result<set<set<Node>>>)
      requires Valid()
      modifies this
      ensures Valid()
      ensures r.Err? <==> !(curr <= G.Keys)
      ensures r.Err? ==> activeNodes == old(activeNodes) && components == old(components)
      ensures r.Ok? ==> activeNodes == curr && r.value == components
      ensures r.Ok? ==> IsPartition(G, curr, components)
      ensures r.Ok? ==> forall cs :: IsComponentList(G, curr, cs) ==> Elements(cs) == components
    {
      if !(curr <= G.Keys) {
        ghost var someUnknown := NotSubset(curr, G.Keys);
        var u :| u in curr && u !in G;
        return Err(UnknownNode(u));
      }
      var setA := Stable(activeNodes, curr);
      var setB := Deactivated(activeNodes, curr);
      var setC := NewlyActive(activeNodes, curr);
      DeltaSets(activeNodes, curr);
      RemoveDeactivated(setB);
      AddNewlyActive(setC);
      forall cs | IsComponentList(G, curr, cs)
        ensures Elements(cs) == components
      {
        ListIsPartition(G, curr, cs);
        PartitionUnique(G, curr, Elements(cs), components);
      }
      r := Ok(components);
    }
  }

  /**
    The docstring's first question, asked along a stream of active sets: a maintainer and the
    naive finder are stepped side by side, and the first step at which their components differ
    (as sets of node sets) or only one of them fails is reported.  There is none.
  */
  method FirstDisagreement(G: Graph, steps: seq<set<Node>>) returns (mismatch: Option<int>)
    requires WellFormed(G)
    ensures mismatch == None
  {
    var maintainer := new ComponentMaintainer(G);
    for t := 0 to |steps|
      invariant fresh(maintainer) && maintainer.Valid() && maintainer.G == G
    {
      var incremental := maintainer.Advance(steps[t]);
      var naive := FindActivePaths.FindActiveComponents(G, steps[t]);
      if incremental.Ok? != naive.Ok? {
        return Some(t);
      }
      if naive.Ok? && Elements(naive.value) != incremental.value {
        return Some(t);
      }
    }
    return None;
  }
}
