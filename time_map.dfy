/**
  listByTime of POC/RandomWalksGenerator.py and POC/BaselineApp3.py: turn the walks map (walk
  name to [interval string, path]) into the time map, which lists for each time step the paths
  of the walks whose interval covers it, in walk order.
*/
module TimeMaps {
  import opened Wrappers
  import opened Graphs
  import opened Intervals

  /** A walk with its interval read off its "start,end" string. */
  datatype Timed = Timed(lo: int, hi: int, path: seq<Node>)

  type TimeMap = map<int, seq<seq<Node>>>

  /** A path with its "start,end" string: a walks-map value, or a pathsData key and value. */
  datatype Stamped = Stamped(timeStep: string, path: seq<Node>)

  /** walksMap[walk][0] and walksMap[walk][1] of every walk, in order. */
  function Stamps(walks: seq<WalkEntry>): (r: seq<Stamped>)
    ensures |r| == |walks| && forall i :: 0 <= i < |walks| ==> r[i] == Stamped(walks[i].timeStep, walks[i].path)
  {
    if |walks| == 0 then [] else Stamps(walks[..|walks| - 1]) + [Stamped(walks[|walks| - 1].timeStep, walks[|walks| - 1].path)]
  }

  /** Read every path's interval in order; the first unreadable one raises. */
  function ParseWalks(walks: seq<Stamped>): (r: Result<seq<Timed>>)
    ensures r.Ok? ==> |r.value| == |walks|
    ensures r.Ok? ==> forall i :: 0 <= i < |walks| ==>
      ParseInterval(walks[i].timeStep) == Ok((r.value[i].lo, r.value[i].hi)) && r.value[i].path == walks[i].path
    ensures r.Ok? <==> forall i :: 0 <= i < |walks| ==> ParseInterval(walks[i].timeStep).Ok?
  {
    if |walks| == 0 then Ok([])
    else
      var init :- ParseWalks(walks[..|walks| - 1]);
      var last := walks[|walks| - 1];
      var (lo, hi) :- ParseInterval(last.timeStep);
      assert forall i :: 0 <= i < |walks| - 1 ==> walks[..|walks| - 1][i] == walks[i];
      Ok(init + [Timed(lo, hi, last.path)])
  }

  /** The steps lo .. upto - 1 of a walk. */
  function Range(lo: int, upto: int): (r: set<int>)
    ensures forall t :: t in r <==> lo <= t < upto
    decreases upto - lo
  {
    if upto <= lo then {} else Range(lo, upto - 1) + {upto - 1}
  }

  /** Append e's path at the steps lo .. upto - 1, creating the lists that do not exist yet. */
  function AddWalk(m: TimeMap, e: Timed, upto: int): TimeMap {
    map t | t in m.Keys + Range(e.lo, upto) ::
      (if t in m then m[t] else []) + (if e.lo <= t < upto then [e.path] else [])
  }

  /** The time map listByTime builds, walk after walk. */
  function ByTime(es: seq<Timed>): (r: TimeMap)
    ensures forall t :: t in r ==> 0 < |r[t]| <= |es|
  {
    if |es| == 0 then map[]
    else
      var e := es[|es| - 1];
      AddWalk(ByTime(es[..|es| - 1]), e, e.hi + 1)
  }

  /** Independently of the time map: the paths active at step t, in walk order. */
  function ActiveAt(es: seq<Timed>, t: int): seq<seq<Node>> {
    if |es| == 0 then []
    else
      var e := es[|es| - 1];
      ActiveAt(es[..|es| - 1], t) + (if e.lo <= t <= e.hi then [e.path] else [])
  }

  /**
    listByTime: for each walk, append its path to timeMap[t] for every t in
    range(lowerBound, upperBound + 1).  A malformed interval string raises.  Only the values
    [timeStep, path] of the walks map are read, in its order (Stamps gives them).
  */
  method ListByTime(walksMap: seq<Stamped>) returns (r: Result<TimeMap>)
    ensures r.Ok? <==> ParseWalks(walksMap).Ok?
    ensures r.Ok? ==> r.value == ByTime(ParseWalks(walksMap).value)
  {
    var timeMap: TimeMap := map[];
    ghost var parsed: seq<Timed> := [];
    for w := 0 to |walksMap|
      invariant ParseWalks(walksMap[..w]) == Ok(parsed)
      invariant timeMap == ByTime(parsed)
    {
      ParseExtend(walksMap, w, parsed);
      var time := ParseInterval(walksMap[w].timeStep);
      if time.Err? {
        PrefixFails(walksMap, w + 1);
        return Err(time.error);
      }
      var (lowerBound, upperBound) := time.value;
      var path := walksMap[w].path;
      ghost var e := Timed(lowerBound, upperBound, path);
      timeMap := AppendAcross(timeMap, lowerBound, upperBound, path);
      WalkAdded(parsed, e, if upperBound < lowerBound then lowerBound else upperBound + 1);
      parsed := parsed + [e];
    }
    assert walksMap[..|walksMap|] == walksMap;
    return Ok(timeMap);
  }

  /** The inner loop: append path to timeMap[t] for t in range(lowerBound, upperBound + 1). */
  method AppendAcross(timeMap: TimeMap, lowerBound: int, upperBound: int, path: seq<Node>) returns (m: TimeMap)
    ensures var e := Timed(lowerBound, upperBound, path);
      m == AddWalk(timeMap, e, if upperBound < lowerBound then lowerBound else upperBound + 1)
  {
    ghost var e := Timed(lowerBound, upperBound, path);
    m := timeMap;
    AddWalkEmpty(timeMap, e, lowerBound);
    var t := lowerBound;
    while t <= upperBound
      invariant lowerBound <= t && (t <= upperBound + 1 || t == lowerBound)
      invariant m == AddWalk(timeMap, e, t)
    {
      AppendStep(timeMap, e, t, m);
      if t in m {
        m := m[t := m[t] + [path]];
      } else {
        m := m[t := [path]];
      }
      t := t + 1;
    }
    assert t == if upperBound < lowerBound then lowerBound else upperBound + 1;
  }

  /** When the inner loop ends, the time map is the one for one more walk. */
  lemma {:induction false} WalkAdded(es: seq<Timed>, e: Timed, t: int)
    requires e.lo <= t && (t == e.hi + 1 || (t == e.lo && e.hi < e.lo))
    ensures AddWalk(ByTime(es), e, t) == ByTime(es + [e])
  {
    ByTimeSnoc(es, e);
    if e.hi < e.lo {
      AddWalkEmpty(ByTime(es), e, e.hi + 1);
      AddWalkEmpty(ByTime(es), e, t);
    }
  }

  /** The time map of one more walk. */
  lemma {:induction false} ByTimeSnoc(es: seq<Timed>, e: Timed)
    ensures ByTime(es + [e]) == AddWalk(ByTime(es), e, e.hi + 1)
  {
    assert (es + [e])[..|es|] == es;
  }

  /** Reading one more walk. */
  lemma {:induction false} ParseExtend(walks: seq<Stamped>, w: nat, parsed: seq<Timed>)
    requires w < |walks| && ParseWalks(walks[..w]) == Ok(parsed)
    ensures ParseInterval(walks[w].timeStep).Err? ==> !ParseWalks(walks[..w + 1]).Ok?
    ensures ParseInterval(walks[w].timeStep).Ok? ==>
      var (lo, hi) := ParseInterval(walks[w].timeStep).value;
      && ParseWalks(walks[..w + 1]) == Ok(parsed + [Timed(lo, hi, walks[w].path)])
      && (parsed + [Timed(lo, hi, walks[w].path)])[..|parsed|] == parsed
  {
    assert walks[..w + 1][..w] == walks[..w];
    assert walks[..w + 1][w] == walks[w];
  }

  /** Both branches of the inner loop's body add the path at step t. */
  lemma {:induction false} AppendStep(timeMap: TimeMap, e: Timed, t: int, m: TimeMap)
    requires e.lo <= t && m == AddWalk(timeMap, e, t)
    ensures t in m ==> m[t := m[t] + [e.path]] == AddWalk(timeMap, e, t + 1)
    ensures t !in m ==> m[t := [e.path]] == AddWalk(timeMap, e, t + 1)
  {
    AddWalkStep(timeMap, e, t);
    assert [] + [e.path] == [e.path];
  }

  /** One more step of the inner loop. */
  lemma {:induction false} AddWalkStep(m: TimeMap, e: Timed, t: int)
    requires e.lo <= t
    ensures AddWalk(m, e, t + 1) ==
      var n := AddWalk(m, e, t);
      n[t := (if t in n then n[t] else []) + [e.path]]
  {
    var n := AddWalk(m, e, t);
    var n' := n[t := (if t in n then n[t] else []) + [e.path]];
    var a := AddWalk(m, e, t + 1);
    assert a.Keys == n'.Keys;
    forall k | k in a
      ensures a[k] == n'[k]
    {
      if k == t {
        assert (if t in n then n[t] else []) == (if t in m then m[t] else []);
      }
    }
  }

  /** An interval with no steps adds nothing, whatever its end. */
  lemma {:induction false} AddWalkEmpty(m: TimeMap, e: Timed, upto: int)
    requires upto <= e.lo
    ensures AddWalk(m, e, upto) == m
  {
    var a := AddWalk(m, e, upto);
    assert a.Keys == m.Keys;
    forall k | k in a
      ensures a[k] == m[k]
    {
      assert (if e.lo <= k < upto then [e.path] else []) == [];
    }
  }

  /** Once a prefix fails to parse, so does the whole list. */
  lemma {:induction false} PrefixFails(walks: seq<Stamped>, n: nat)
    requires n <= |walks| && !ParseWalks(walks[..n]).Ok?
    ensures !ParseWalks(walks).Ok?
  {
    var i :| 0 <= i < n && !ParseInterval(walks[..n][i].timeStep).Ok?;
    assert walks[..n][i] == walks[i];
  }

  /** A step is a key of the time map exactly when some walk's interval covers it. */
  lemma {:induction false} ByTimeKeys(es: seq<Timed>, t: int)
    ensures t in ByTime(es) <==> exists i :: 0 <= i < |es| && es[i].lo <= t <= es[i].hi
  {
    if |es| > 0 {
      var init := es[..|es| - 1];
      ByTimeKeys(init, t);
      assert forall i :: 0 <= i < |init| ==> init[i] == es[i];
      if t in ByTime(es) && t !in ByTime(init) {
        assert es[|es| - 1].lo <= t <= es[|es| - 1].hi;
      }
    }
  }

  /**
    Each list of the time map is exactly the paths active at that step, in walk order, and
    the steps without an active walk are absent.
  */
  lemma {:induction false} ByTimeIsActiveAt(es: seq<Timed>, t: int)
    ensures t in ByTime(es) <==> |ActiveAt(es, t)| > 0
    ensures t in ByTime(es) ==> ByTime(es)[t] == ActiveAt(es, t)
  {
    if |es| > 0 {
      ByTimeIsActiveAt(es[..|es| - 1], t);
    }
  }

  /** A path is listed at step t exactly when one of the walks carrying it covers t. */
  lemma {:induction false} ActiveAtMembers(es: seq<Timed>, t: int, p: seq<Node>)
    ensures p in ActiveAt(es, t) <==> exists i :: 0 <= i < |es| && es[i].lo <= t <= es[i].hi && es[i].path == p
  {
    if |es| > 0 {
      var init := es[..|es| - 1];
      ActiveAtMembers(init, t, p);
      assert forall i :: 0 <= i < |init| ==> init[i] == es[i];
      var e := es[|es| - 1];
      if p in ActiveAt(es, t) && p !in ActiveAt(init, t) {
        assert e.lo <= t <= e.hi && e.path == p;
      }
      if exists i :: 0 <= i < |es| && es[i].lo <= t <= es[i].hi && es[i].path == p {
        var i :| 0 <= i < |es| && es[i].lo <= t <= es[i].hi && es[i].path == p;
        if i < |init| {
          assert init[i] == es[i];
        }
      }
    }
  }

  /** Walk order: the number of paths listed at t is the number of walks covering t. */
  lemma {:induction false} ActiveAtCount(es: seq<Timed>, t: int)
    ensures |ActiveAt(es, t)| <= |es|
    ensures (forall i :: 0 <= i < |es| ==> es[i].lo <= t <= es[i].hi) ==> ActiveAt(es, t) == Paths(es)
  {
    if |es| > 0 {
      var init := es[..|es| - 1];
      ActiveAtCount(init, t);
      assert forall i :: 0 <= i < |init| ==> init[i] == es[i];
    }
  }

  /** The paths of the walks, in order. */
  function Paths(es: seq<Timed>): (ps: seq<seq<Node>>)
    ensures |ps| == |es| && forall i :: 0 <= i < |es| ==> ps[i] == es[i].path
  {
    if |es| == 0 then [] else Paths(es[..|es| - 1]) + [es[|es| - 1].path]
  }
}
