/**
  generatePaths of POC/BaselineApp.py, POC/previous-versions/BaselineApp.py and
  util/naive3.0.py: one backtracking walk per interval [i, i + k], with i = 0, k + 1,
  2(k + 1), ... while i < TS - 1, stored as pathsData["i,i+k"] = walk.  The three files fix
  k = 3 and set TS to 100, 10 and 12 respectively.
*/
module Schedules {
  import opened Wrappers
  import opened Graphs
  import opened Intervals
  import opened TimeMaps
  import opened RandomWalks

  /** Each path has time interval [t, t + k]. */
  const PathSpan: nat := 3

  /** The intervals left to lay out from step i on. */
  function ScheduleFrom(i: int, ts: int): (r: seq<(int, int)>)
    ensures |r| == if i < ts - 1 then (ts - 2 - i) / 4 + 1 else 0
    decreases ts - i
  {
    if i < ts - 1 then [(i, i + PathSpan)] + ScheduleFrom(i + PathSpan + 1, ts) else []
  }

  /** The intervals generatePaths lays out, in order. */
  function Schedule(ts: int): (r: seq<(int, int)>)
    ensures |r| == if ts > 1 then (ts - 2) / 4 + 1 else 0
  {
    ScheduleFrom(0, ts)
  }

  /**
    The as-written schedule: the j-th interval from i on is [i + 4j, i + 4j + 3], which starts
    before TS - 1 but can end past the last step TS - 1.
  */
  lemma {:induction false} ScheduleFromShape(i: int, ts: int)
    ensures forall j :: 0 <= j < |ScheduleFrom(i, ts)| ==>
      ScheduleFrom(i, ts)[j] == (i + 4 * j, i + 4 * j + 3) && i + 4 * j < ts - 1
    decreases ts - i
  {
    if i < ts - 1 {
      ScheduleFromShape(i + 4, ts);
      var S := ScheduleFrom(i, ts);
      var T := ScheduleFrom(i + 4, ts);
      assert S == [(i, i + 3)] + T;
      forall j | 1 <= j < |S|
        ensures S[j] == (i + 4 * j, i + 4 * j + 3) && i + 4 * j < ts - 1
      {
        assert S[j] == T[j - 1];
        assert T[j - 1] == (i + 4 + 4 * (j - 1), i + 4 + 4 * (j - 1) + 3) && i + 4 + 4 * (j - 1) < ts - 1;
      }
    }
  }

  /**
    The intervals of the as-written schedule are pairwise disjoint, increasing, and start
    inside 0 .. TS - 2.
  */
  lemma {:induction false} ScheduleShape(ts: int)
    ensures forall j :: 0 <= j < |Schedule(ts)| ==> Schedule(ts)[j] == (4 * j, 4 * j + 3) && 4 * j < ts - 1
    ensures forall a, b :: 0 <= a < b < |Schedule(ts)| ==> Schedule(ts)[a].1 < Schedule(ts)[b].0
  {
    ScheduleFromShape(0, ts);
  }

  /**
    The same schedule with every interval clamped to the last step, as assignTimeSteps clamps
    its end step: [i, min(i + k, TS - 1)].
  */
  function BoundedScheduleFrom(i: int, ts: int): (r: seq<(int, int)>)
    ensures |r| == if i < ts - 1 then (ts - 2 - i) / 4 + 1 else 0
    decreases ts - i
  {
    if i < ts - 1 then
      [(i, if i + PathSpan > ts - 1 then ts - 1 else i + PathSpan)] + BoundedScheduleFrom(i + PathSpan + 1, ts)
    else []
  }

  /** As many intervals as the as-written schedule. */
  function BoundedSchedule(ts: int): (r: seq<(int, int)>)
    ensures |r| == |Schedule(ts)|
  {
    BoundedScheduleFrom(0, ts)
  }

  /** The j-th clamped interval from i on is [i + 4j, min(i + 4j + 3, TS - 1)]. */
  lemma {:induction false} BoundedScheduleFromShape(i: int, ts: int)
    ensures forall j :: 0 <= j < |BoundedScheduleFrom(i, ts)| ==>
      && BoundedScheduleFrom(i, ts)[j].0 == i + 4 * j < ts - 1
      && BoundedScheduleFrom(i, ts)[j].1 == if i + 4 * j + 3 > ts - 1 then ts - 1 else i + 4 * j + 3
    decreases ts - i
  {
    if i < ts - 1 {
      BoundedScheduleFromShape(i + 4, ts);
      var S := BoundedScheduleFrom(i, ts);
      var T := BoundedScheduleFrom(i + 4, ts);
      assert S == [S[0]] + T;
      forall j | 1 <= j < |S|
        ensures S[j].0 == i + 4 * j < ts - 1
        ensures S[j].1 == if i + 4 * j + 3 > ts - 1 then ts - 1 else i + 4 * j + 3
      {
        assert S[j] == T[j - 1];
        assert i + 4 + 4 * (j - 1) == i + 4 * j;
      }
    }
  }

  /**
    The clamped intervals are non-empty ranges of steps inside 0 .. TS - 1, pairwise disjoint
    and increasing.
  */
  lemma {:induction false} BoundedScheduleShape(ts: int)
    ensures forall j :: 0 <= j < |BoundedSchedule(ts)| ==> 0 <= BoundedSchedule(ts)[j].0 <= BoundedSchedule(ts)[j].1 <= ts - 1
    ensures forall a, b :: 0 <= a < b < |BoundedSchedule(ts)| ==> BoundedSchedule(ts)[a].1 < BoundedSchedule(ts)[b].0
  {
    BoundedScheduleFromShape(0, ts);
  }

  /**
    Both schedules are the same exactly when the last interval fits, that is when the steps
    i .. TS - 2 left for starts leave a remainder of at least 2 modulo 4.
  */
  lemma {:induction false} ScheduleAgree(i: int, ts: int)
    requires ts - 1 <= i || (ts - 2 - i) % 4 >= 2
    ensures ScheduleFrom(i, ts) == BoundedScheduleFrom(i, ts)
    decreases ts - i
  {
    if i < ts - 1 {
      var i' := i + PathSpan + 1;
      if i' < ts - 1 {
        assert (ts - 2 - i') % 4 == (ts - 2 - i) % 4;
      } else {
        assert (ts - 2 - i) % 4 == ts - 2 - i;
      }
      ScheduleAgree(i', ts);
    }
  }

  /** TS = 100 (POC/BaselineApp.py): 25 intervals, the last [96, 99]; clamping changes nothing. */
  lemma {:induction false} ScheduleTS100(ts: int)
    requires ts == 100
    ensures |Schedule(ts)| == 25
    ensures Schedule(ts)[24] == (96, 99)
    ensures Schedule(ts) == BoundedSchedule(ts)
  {
    ScheduleLength(0, ts, 25);
    ScheduleShape(ts);
    ScheduleAgree(0, ts);
  }

  /** TS = 12 (util/naive3.0.py): [0, 3], [4, 7], [8, 11]; clamping changes nothing. */
  lemma {:induction false} ScheduleTS12()
    ensures Schedule(12) == [(0, 3), (4, 7), (8, 11)]
    ensures Schedule(12) == BoundedSchedule(12)
  {
    ScheduleAgree(0, 12);
  }

  /**
    TS = 10 (POC/previous-versions/BaselineApp.py): the last interval [8, 11] runs past the last
    step 9, where the clamped schedule stops.
  */
  lemma {:induction false} ScheduleTS10()
    ensures Schedule(10) == [(0, 3), (4, 7), (8, 11)]
    ensures Schedule(10)[2].1 > 10 - 1
    ensures BoundedSchedule(10) == [(0, 3), (4, 7), (8, 9)]
  {
  }

  lemma {:induction false} ScheduleLength(i: int, ts: int, n: nat)
    requires 0 <= i && 4 * n + i >= ts - 1 && (n == 0 || 4 * (n - 1) + i < ts - 1)
    ensures |ScheduleFrom(i, ts)| == n
    decreases ts - i
  {
    if i < ts - 1 {
      ScheduleLength(i + PathSpan + 1, ts, n - 1);
    }
  }

  /**
    generatePaths: one backtracking walk per interval of the schedule, keyed by the interval
    string; the j-th walk starts at nodes[starts(j)] (random.choice over list(G.nodes())), which
    fails on an empty node list.  The end of the last interval is clamped to TS - 1, which
    changes nothing for TS = 100 and TS = 12 (ScheduleTS100, ScheduleTS12) and keeps TS = 10
    inside the matrix (AsWrittenScheduleOverflows in ActivityMatrix).
  */
  method GeneratePaths(G: Graph, nodes: seq<Node>, ts: int, starts: nat -> nat,
                       coins: nat -> seq<bool>, choose: nat -> nat -> nat)
    returns (r: Result<seq<Stamped>>)
    ensures r.Err? <==> |BoundedSchedule(ts)| > 0 && |nodes| == 0
    ensures r.Ok? ==> |r.value| == |BoundedSchedule(ts)|
    ensures r.Ok? ==> forall j :: 0 <= j < |r.value| ==>
      && r.value[j].timeStep == FormatInterval(BoundedSchedule(ts)[j].0, BoundedSchedule(ts)[j].1)
      && |nodes| > 0 && r.value[j].path == DrawnWalk(G, nodes, starts, coins, choose, j)
  {
    var k := PathSpan;
    var paths: seq<Stamped> := [];
    var i := 0;
    while i < ts - 1
      invariant PathsSoFar(G, nodes, ts, starts, coins, choose, i, paths)
      decreases ts - i
    {
      if |nodes| == 0 {
        PathsNonEmpty(G, nodes, ts, starts, coins, choose, i, paths);
        return Err(IndexOutOfRange(0));
      }
      var j := |paths|;
      var path := RandomWalkBacktrack(G, nodes[starts(j) % |nodes|], coins(j), choose(j));
      var hi := if i + k > ts - 1 then ts - 1 else i + k;
      PathsAdvance(G, nodes, ts, starts, coins, choose, i, paths, path);
      paths := paths + [Stamped(FormatInterval(i, hi), path)];
      i := i + k + 1;
    }
    PathsDone(G, nodes, ts, starts, coins, choose, i, paths);
    return Ok(paths);
  }

  /** The walk generatePaths draws for the j-th interval. */
  function DrawnWalk(G: Graph, nodes: seq<Node>, starts: nat -> nat, coins: nat -> seq<bool>,
                     choose: nat -> nat -> nat, j: nat): seq<Node>
    requires |nodes| > 0
  {
    WalkBacktrack(G, coins(j), choose(j), PopIntoCurrent, Begin(nodes[starts(j) % |nodes|])).0.path
  }

  /** The loop's invariant: the walks so far are those of the first intervals of the schedule. */
  ghost predicate PathsSoFar(G: Graph, nodes: seq<Node>, ts: int, starts: nat -> nat,
                             coins: nat -> seq<bool>, choose: nat -> nat -> nat, i: int, paths: seq<Stamped>)
  {
    var S := BoundedSchedule(ts);
    && |paths| <= |S|
    && BoundedScheduleFrom(i, ts) == S[|paths|..]
    && (|paths| > 0 ==> |nodes| > 0)
    && forall j :: 0 <= j < |paths| ==>
      && paths[j].timeStep == FormatInterval(S[j].0, S[j].1)
      && |nodes| > 0 && paths[j].path == DrawnWalk(G, nodes, starts, coins, choose, j)
  }

  /** While intervals are left, there is one more of them to draw. */
  lemma {:induction false} PathsNonEmpty(G: Graph, nodes: seq<Node>, ts: int, starts: nat -> nat,
                                       coins: nat -> seq<bool>, choose: nat -> nat -> nat, i: int, paths: seq<Stamped>)
    requires PathsSoFar(G, nodes, ts, starts, coins, choose, i, paths) && i < ts - 1
    ensures |paths| < |BoundedSchedule(ts)|
  {
    assert |BoundedScheduleFrom(i, ts)| > 0;
  }

  /** Drawing the walk of the next interval keeps the invariant. */
  lemma {:induction false} PathsAdvance(G: Graph, nodes: seq<Node>, ts: int, starts: nat -> nat,
                                      coins: nat -> seq<bool>, choose: nat -> nat -> nat, i: int, paths: seq<Stamped>,
                                      path: seq<Node>)
    requires PathsSoFar(G, nodes, ts, starts, coins, choose, i, paths) && i < ts - 1 && |nodes| > 0
    requires path == DrawnWalk(G, nodes, starts, coins, choose, |paths|)
    ensures var hi := if i + PathSpan > ts - 1 then ts - 1 else i + PathSpan;
      PathsSoFar(G, nodes, ts, starts, coins, choose, i + PathSpan + 1, paths + [Stamped(FormatInterval(i, hi), path)])
  {
    var S := BoundedSchedule(ts);
    var j := |paths|;
    var hi := if i + PathSpan > ts - 1 then ts - 1 else i + PathSpan;
    var paths' := paths + [Stamped(FormatInterval(i, hi), path)];
    assert S[j..] == [(i, hi)] + BoundedScheduleFrom(i + PathSpan + 1, ts);
    assert S[j] == (i, hi) by {
      assert S[j..][0] == S[j];
    }
    assert S[j + 1..] == BoundedScheduleFrom(i + PathSpan + 1, ts) by {
      assert S[j..][1..] == S[j + 1..];
    }
    forall j' | 0 <= j' < |paths'|
      ensures paths'[j'].timeStep == FormatInterval(S[j'].0, S[j'].1)
      ensures paths'[j'].path == DrawnWalk(G, nodes, starts, coins, choose, j')
    {
      if j' < j {
        assert paths'[j'] == paths[j'];
      }
    }
  }

  /** When the loop ends, every interval has its walk. */
  lemma {:induction false} PathsDone(G: Graph, nodes: seq<Node>, ts: int, starts: nat -> nat,
                                   coins: nat -> seq<bool>, choose: nat -> nat -> nat, i: int, paths: seq<Stamped>)
    requires PathsSoFar(G, nodes, ts, starts, coins, choose, i, paths) && ts - 1 <= i
    ensures |paths| == |BoundedSchedule(ts)|
  {
    assert BoundedScheduleFrom(i, ts) == [];
  }

  /** The keys of pathsData are distinct, so no walk overwrites another. */
  lemma {:induction false} ScheduleKeysDistinct(ts: int, a: nat, b: nat)
    requires a < b < |BoundedSchedule(ts)|
    ensures FormatInterval(BoundedSchedule(ts)[a].0, BoundedSchedule(ts)[a].1) != FormatInterval(BoundedSchedule(ts)[b].0, BoundedSchedule(ts)[b].1)
  {
    BoundedScheduleShape(ts);
    var S := BoundedSchedule(ts);
    IntervalRoundTrip(S[a].0, S[a].1);
    IntervalRoundTrip(S[b].0, S[b].1);
  }
}
