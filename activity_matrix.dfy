/**
  genInputFile: the 0/1 activity matrix (one row per node, one column per time step) that the
  generators fill before writing it out.  numpy reads an index on an axis of length n as
  itself when it is in 0 .. n - 1 and as i + n when it is in -n .. -1; any other index raises
  IndexError, which aborts the fill.
*/
module ActivityMatrix {
  import opened Wrappers
  import opened Graphs
  import opened Intervals
  import opened TimeMaps
  import opened Schedules

  /** numpy's reading of index i on an axis of length n. */
  function NumpyIndex(i: int, n: nat): (r: Option<int>)
    ensures r.Some? ==> 0 <= r.value < n
  {
    if 0 <= i < n then Some(i) else if 0 <= i + n && i < 0 then Some(i + n) else None
  }

  // ---------------------------------------------------------------- cells a list of walks covers

  /** One of the first upto nodes of path is row a. */
  ghost predicate RowHit(path: seq<Node>, upto: int, rows: nat, a: int) {
    exists j :: 0 <= j < upto && j < |path| && NumpyIndex(path[j], rows) == Some(a)
  }

  /** One of the steps lo .. upto - 1 is column b. */
  ghost predicate ColHit(lo: int, upto: int, cols: nat, b: int) {
    exists t :: lo <= t < upto && NumpyIndex(t, cols) == Some(b)
  }

  /** Cell (a, b) is set by walk e: one of its nodes is row a and one of its steps is column b. */
  ghost predicate Covers(e: Timed, rows: nat, cols: nat, a: int, b: int) {
    RowHit(e.path, |e.path|, rows, a) && ColHit(e.lo, e.hi + 1, cols, b)
  }

  /** Cell (a, b) is set by one of the first upto walks. */
  ghost predicate CoveredBy(es: seq<Timed>, upto: int, rows: nat, cols: nat, a: int, b: int) {
    exists i :: 0 <= i < upto && i < |es| && Covers(es[i], rows, cols, a, b)
  }

  ghost predicate RowsValid(path: seq<Node>, upto: int, rows: nat) {
    forall j :: 0 <= j < upto && j < |path| ==> NumpyIndex(path[j], rows).Some?
  }

  ghost predicate ColsValid(lo: int, upto: int, cols: nat) {
    forall t :: lo <= t < upto ==> NumpyIndex(t, cols).Some?
  }

  /** Walk e writes only cells numpy accepts (a walk with no node or no step writes nothing). */
  ghost predicate WalkValid(e: Timed, rows: nat, cols: nat) {
    && (e.lo <= e.hi ==> RowsValid(e.path, |e.path|, rows))
    && (|e.path| > 0 ==> ColsValid(e.lo, e.hi + 1, cols))
  }

  ghost predicate AllValid(es: seq<Timed>, upto: int, rows: nat, cols: nat) {
    forall i :: 0 <= i < upto && i < |es| ==> WalkValid(es[i], rows, cols)
  }

  /** The matrix holds 1 exactly at the cells the first upto walks cover, and 0 elsewhere. */
  ghost predicate HoldsCovered(M: array2<int>, es: seq<Timed>, upto: int, rows: nat, cols: nat)
    reads M
  {
    forall a, b :: 0 <= a < M.Length0 && 0 <= b < M.Length1 ==>
      M[a, b] == if CoveredBy(es, upto, rows, cols, a, b) then 1 else 0
  }

  lemma {:induction false} RowHitNext(path: seq<Node>, j: int, rows: nat, a: int)
    requires 0 <= j < |path|
    ensures RowHit(path, j + 1, rows, a) <==> RowHit(path, j, rows, a) || NumpyIndex(path[j], rows) == Some(a)
  {
    if RowHit(path, j + 1, rows, a) && NumpyIndex(path[j], rows) != Some(a) {
      var k :| 0 <= k < j + 1 && k < |path| && NumpyIndex(path[k], rows) == Some(a);
      assert k < j;
    }
  }

  lemma {:induction false} ColHitNext(lo: int, t: int, cols: nat, b: int)
    requires lo <= t
    ensures ColHit(lo, t + 1, cols, b) <==> ColHit(lo, t, cols, b) || NumpyIndex(t, cols) == Some(b)
  {
    if ColHit(lo, t + 1, cols, b) && NumpyIndex(t, cols) != Some(b) {
      var u :| lo <= u < t + 1 && NumpyIndex(u, cols) == Some(b);
      assert u < t;
    }
  }

  lemma {:induction false} CoveredNext(es: seq<Timed>, w: int, rows: nat, cols: nat, a: int, b: int)
    requires 0 <= w < |es|
    ensures CoveredBy(es, w + 1, rows, cols, a, b) <==> CoveredBy(es, w, rows, cols, a, b) || Covers(es[w], rows, cols, a, b)
  {
    if CoveredBy(es, w + 1, rows, cols, a, b) && !Covers(es[w], rows, cols, a, b) {
      var i :| 0 <= i < w + 1 && i < |es| && Covers(es[i], rows, cols, a, b);
      assert i < w;
    }
  }

  // ---------------------------------------------------------------- from the walks map

  /**
    genInputFile of POC/BaselineApp3.py and POC/BaselineApp2.py: for each walk, for each node of
    its path, for each step of its interval, nodeMatrix[node, t] = 1.
  */
  method FillFromWalks(walksMap: seq<Stamped>, rows: nat, cols: nat) returns (r: Result<array2<int>>)
    ensures r.Ok? <==> ParseWalks(walksMap).Ok? && AllValid(ParseWalks(walksMap).value, |walksMap|, rows, cols)
    ensures r.Ok? ==> fresh(r.value) && r.value.Length0 == rows && r.value.Length1 == cols
    ensures r.Ok? ==> HoldsCovered(r.value, ParseWalks(walksMap).value, |walksMap|, rows, cols)
  {
    var nodeMatrix := new int[rows, cols]((_, _) => 0);
    ghost var parsed: seq<Timed> := [];
    for w := 0 to |walksMap|
      invariant ParseWalks(walksMap[..w]) == Ok(parsed) && |parsed| == w
      invariant AllValid(parsed, w, rows, cols)
      invariant HoldsCovered(nodeMatrix, parsed, w, rows, cols)
      invariant nodeMatrix.Length0 == rows && nodeMatrix.Length1 == cols
    {
      ParseExtend(walksMap, w, parsed);
      var time := ParseInterval(walksMap[w].timeStep);
      if time.Err? {
        PrefixFails(walksMap, w + 1);
        return Err(time.error);
      }
      var (lowerBound, upperBound) := time.value;
      var path := walksMap[w].path;
      ghost var e := Timed(lowerBound, upperBound, path);
      ghost var es := parsed + [e];
      SameCover(parsed, es, w, rows, cols);
      var ok := FillWalk(nodeMatrix, lowerBound, upperBound, path, es, w, rows, cols);
      if !ok {
        WalkInvalid(walksMap, w, es, rows, cols);
        return Err(IndexOutOfRange(w));
      }
      parsed := es;
    }
    assert walksMap[..|walksMap|] == walksMap;
    return Ok(nodeMatrix);
  }

  /** Covering and validity of the first w walks only look at those walks. */
  lemma {:induction false} SameCover(es: seq<Timed>, es': seq<Timed>, w: int, rows: nat, cols: nat)
    requires 0 <= w <= |es| && w <= |es'| && es[..w] == es'[..w]
    ensures forall a, b :: CoveredBy(es, w, rows, cols, a, b) <==> CoveredBy(es', w, rows, cols, a, b)
    ensures AllValid(es, w, rows, cols) <==> AllValid(es', w, rows, cols)
  {
    assert forall i :: 0 <= i < w ==> es[i] == es[..w][i] == es'[i];
  }

  /** An invalid walk makes the whole walks map invalid. */
  lemma {:induction false} WalkInvalid(walksMap: seq<Stamped>, w: int, es: seq<Timed>, rows: nat, cols: nat)
    requires 0 <= w < |walksMap| && |es| == w + 1
    requires ParseWalks(walksMap[..w + 1]) == Ok(es) && !WalkValid(es[w], rows, cols)
    ensures ParseWalks(walksMap).Ok? ==> !AllValid(ParseWalks(walksMap).value, |walksMap|, rows, cols)
  {
    if ParseWalks(walksMap).Ok? {
      var all := ParseWalks(walksMap).value;
      assert walksMap[..w + 1][w] == walksMap[w];
      assert all[w] == es[w];
    }
  }

  /**
    One walk of genInputFile: the node loop with the step loop inside.  Returns false, leaving
    the matrix partly filled, when numpy would raise.
  */
  method FillWalk(M: array2<int>, lowerBound: int, upperBound: int, path: seq<Node>,
                  ghost es: seq<Timed>, ghost w: int, rows: nat, cols: nat) returns (ok: bool)
    requires 0 <= w < |es| && es[w] == Timed(lowerBound, upperBound, path)
    requires M.Length0 == rows && M.Length1 == cols
    requires AllValid(es, w, rows, cols) && HoldsCovered(M, es, w, rows, cols)
    modifies M
    ensures ok <==> WalkValid(es[w], rows, cols)
    ensures ok ==> AllValid(es, w + 1, rows, cols) && HoldsCovered(M, es, w + 1, rows, cols)
  {
    for j := 0 to |path|
      invariant forall a, b :: 0 <= a < rows && 0 <= b < cols ==>
        M[a, b] == if CoveredBy(es, w, rows, cols, a, b) || (RowHit(path, j, rows, a) && ColHit(lowerBound, upperBound + 1, cols, b)) then 1 else 0
      invariant lowerBound <= upperBound ==> RowsValid(path, j, rows)
      invariant j > 0 ==> ColsValid(lowerBound, upperBound + 1, cols)
    {
      var node := path[j];
      var t := lowerBound;
      while t <= upperBound
        invariant lowerBound <= t && (t <= upperBound + 1 || t == lowerBound)
        invariant forall a, b :: 0 <= a < rows && 0 <= b < cols ==>
          M[a, b] == if CoveredBy(es, w, rows, cols, a, b) || (RowHit(path, j, rows, a) && ColHit(lowerBound, upperBound + 1, cols, b))
                       || (NumpyIndex(node, rows) == Some(a) && ColHit(lowerBound, t, cols, b)) then 1 else 0
        invariant t > lowerBound ==> NumpyIndex(node, rows).Some?
        invariant ColsValid(lowerBound, t, cols)
      {
        var row, col := NumpyIndex(node, rows), NumpyIndex(t, cols);
        if row.None? || col.None? {
          assert !WalkValid(es[w], rows, cols) by {
            if row.None? {
              assert !RowsValid(path, |path|, rows);
            } else {
              assert !ColsValid(lowerBound, upperBound + 1, cols);
            }
          }
          return false;
        }
        M[row.value, col.value] := 1;
        forall b | 0 <= b < cols
          ensures ColHit(lowerBound, t + 1, cols, b) <==> ColHit(lowerBound, t, cols, b) || NumpyIndex(t, cols) == Some(b)
        {
          ColHitNext(lowerBound, t, cols, b);
        }
        t := t + 1;
      }
      forall a | 0 <= a < rows
        ensures RowHit(path, j + 1, rows, a) <==> RowHit(path, j, rows, a) || NumpyIndex(node, rows) == Some(a)
      {
        RowHitNext(path, j, rows, a);
      }
    }
    forall a, b | 0 <= a < rows && 0 <= b < cols
      ensures CoveredBy(es, w + 1, rows, cols, a, b) <==> CoveredBy(es, w, rows, cols, a, b) || Covers(es[w], rows, cols, a, b)
    {
      CoveredNext(es, w, rows, cols, a, b);
    }
    return true;
  }

  // ---------------------------------------------------------------- from pathsData

  /**
    genInputFile of POC/BaselineApp.py, POC/previous-versions/BaselineApp.py and util/naive3.0.py:
    for each key "lo,hi" of pathsData, in insertion order, for each step from lo to hi, for each
    node of its path, nodeMatrix[node, step] = 1.  The loops run the other way round from
    FillFromWalks and set the same cells.
  */
  method FillFromSchedule(pathsData: seq<Stamped>, rows: nat, cols: nat) returns (r: Result<array2<int>>)
    ensures r.Ok? <==> ParseWalks(pathsData).Ok? && AllValid(ParseWalks(pathsData).value, |pathsData|, rows, cols)
    ensures r.Ok? ==> fresh(r.value) && r.value.Length0 == rows && r.value.Length1 == cols
    ensures r.Ok? ==> HoldsCovered(r.value, ParseWalks(pathsData).value, |pathsData|, rows, cols)
  {
    var nodeMatrix := new int[rows, cols]((_, _) => 0);
    ghost var parsed: seq<Timed> := [];
    for w := 0 to |pathsData|
      invariant ParseWalks(pathsData[..w]) == Ok(parsed) && |parsed| == w
      invariant AllValid(parsed, w, rows, cols)
      invariant HoldsCovered(nodeMatrix, parsed, w, rows, cols)
      invariant nodeMatrix.Length0 == rows && nodeMatrix.Length1 == cols
    {
      ParseExtend(pathsData, w, parsed);
      var timeRange := ParseInterval(pathsData[w].timeStep);
      if timeRange.Err? {
        PrefixFails(pathsData, w + 1);
        return Err(timeRange.error);
      }
      var (lowerBound, upperBound) := timeRange.value;
      var path := pathsData[w].path;
      ghost var es := parsed + [Timed(lowerBound, upperBound, path)];
      SameCover(parsed, es, w, rows, cols);
      var ok := FillInterval(nodeMatrix, lowerBound, upperBound, path, es, w, rows, cols);
      if !ok {
        WalkInvalid(pathsData, w, es, rows, cols);
        return Err(IndexOutOfRange(w));
      }
      parsed := es;
    }
    assert pathsData[..|pathsData|] == pathsData;
    return Ok(nodeMatrix);
  }

  /** One key of pathsData: the step loop with the node loop inside. */
  method FillInterval(M: array2<int>, lowerBound: int, upperBound: int, path: seq<Node>,
                      ghost es: seq<Timed>, ghost w: int, rows: nat, cols: nat) returns (ok: bool)
    requires 0 <= w < |es| && es[w] == Timed(lowerBound, upperBound, path)
    requires M.Length0 == rows && M.Length1 == cols
    requires AllValid(es, w, rows, cols) && HoldsCovered(M, es, w, rows, cols)
    modifies M
    ensures ok <==> WalkValid(es[w], rows, cols)
    ensures ok ==> AllValid(es, w + 1, rows, cols) && HoldsCovered(M, es, w + 1, rows, cols)
  {
    var step := lowerBound;
    while step <= upperBound
      invariant lowerBound <= step && (step <= upperBound + 1 || step == lowerBound)
      invariant forall a, b :: 0 <= a < rows && 0 <= b < cols ==>
        M[a, b] == if CoveredBy(es, w, rows, cols, a, b) || (RowHit(path, |path|, rows, a) && ColHit(lowerBound, step, cols, b)) then 1 else 0
      invariant step > lowerBound ==> RowsValid(path, |path|, rows)
      invariant |path| > 0 ==> ColsValid(lowerBound, step, cols)
    {
      for j := 0 to |path|
        invariant forall a, b :: 0 <= a < rows && 0 <= b < cols ==>
          M[a, b] == if CoveredBy(es, w, rows, cols, a, b) || (RowHit(path, |path|, rows, a) && ColHit(lowerBound, step, cols, b))
                       || (RowHit(path, j, rows, a) && NumpyIndex(step, cols) == Some(b)) then 1 else 0
        invariant RowsValid(path, j, rows)
        invariant j > 0 ==> NumpyIndex(step, cols).Some?
      {
        var row, col := NumpyIndex(path[j], rows), NumpyIndex(step, cols);
        if row.None? || col.None? {
          assert !WalkValid(es[w], rows, cols) by {
            if row.None? {
              assert !RowsValid(path, |path|, rows);
            } else {
              assert !ColsValid(lowerBound, upperBound + 1, cols);
            }
          }
          return false;
        }
        M[row.value, col.value] := 1;
        forall a | 0 <= a < rows
          ensures RowHit(path, j + 1, rows, a) <==> RowHit(path, j, rows, a) || NumpyIndex(path[j], rows) == Some(a)
        {
          RowHitNext(path, j, rows, a);
        }
      }
      forall b | 0 <= b < cols
        ensures ColHit(lowerBound, step + 1, cols, b) <==> ColHit(lowerBound, step, cols, b) || NumpyIndex(step, cols) == Some(b)
      {
        ColHitNext(lowerBound, step, cols, b);
      }
      step := step + 1;
    }
    forall a, b | 0 <= a < rows && 0 <= b < cols
      ensures CoveredBy(es, w + 1, rows, cols, a, b) <==> CoveredBy(es, w, rows, cols, a, b) || Covers(es[w], rows, cols, a, b)
    {
      CoveredNext(es, w, rows, cols, a, b);
    }
    return true;
  }

  // ---------------------------------------------------------------- from the time map

  /** One of the first upto walks of a time-map list has a node on row a. */
  ghost predicate WalksHit(walks: seq<seq<Node>>, upto: int, rows: nat, a: int) {
    exists i :: 0 <= i < upto && i < |walks| && RowHit(walks[i], |walks[i]|, rows, a)
  }

  /** Cell (a, b) is set by the time map when the steps 0 .. upto - 1 have been read. */
  ghost predicate TimeMapCovers(tm: TimeMap, upto: int, rows: nat, a: int, b: int) {
    0 <= b < upto && b in tm && WalksHit(tm[b], |tm[b]|, rows, a)
  }

  ghost predicate WalksValid(walks: seq<seq<Node>>, upto: int, rows: nat) {
    forall i :: 0 <= i < upto && i < |walks| ==> RowsValid(walks[i], |walks[i]|, rows)
  }

  /** Every node listed at the steps 0 .. upto - 1 is a row numpy accepts. */
  ghost predicate TimeMapValid(tm: TimeMap, upto: int, rows: nat) {
    forall t :: 0 <= t < upto && t in tm ==> WalksValid(tm[t], |tm[t]|, rows)
  }

  lemma {:induction false} WalksHitNext(walks: seq<seq<Node>>, i: int, rows: nat, a: int)
    requires 0 <= i < |walks|
    ensures WalksHit(walks, i + 1, rows, a) <==> WalksHit(walks, i, rows, a) || RowHit(walks[i], |walks[i]|, rows, a)
  {
    if WalksHit(walks, i + 1, rows, a) && !RowHit(walks[i], |walks[i]|, rows, a) {
      var k :| 0 <= k < i + 1 && k < |walks| && RowHit(walks[k], |walks[k]|, rows, a);
      assert k < i;
    }
  }

  /**
    genInputFile of POC/RandomWalksGenerator.py: for time = 0 .. TS - 1, when time is a key of
    the time map, for each walk listed there, for each node, nodeMatrix[int(node), time] = 1.
    The matrix has TS columns, so only row indices can be refused.
  */
  method FillFromTimeMap(timeMap: TimeMap, rows: nat, ts: nat) returns (r: Result<array2<int>>)
    ensures r.Ok? <==> TimeMapValid(timeMap, ts, rows)
    ensures r.Ok? ==> fresh(r.value) && r.value.Length0 == rows && r.value.Length1 == ts
    ensures r.Ok? ==> forall a, b :: 0 <= a < rows && 0 <= b < ts ==>
      r.value[a, b] == if TimeMapCovers(timeMap, ts, rows, a, b) then 1 else 0
  {
    var nodeMatrix := new int[rows, ts]((_, _) => 0);
    var time := 0;
    while time <= ts - 1
      invariant 0 <= time <= ts
      invariant TimeMapValid(timeMap, time, rows)
      invariant forall a, b :: 0 <= a < rows && 0 <= b < ts ==>
        nodeMatrix[a, b] == if TimeMapCovers(timeMap, time, rows, a, b) then 1 else 0
    {
      if time in timeMap {
        var ok := FillStep(nodeMatrix, timeMap[time], time, timeMap, rows);
        if !ok {
          return Err(IndexOutOfRange(time));
        }
      }
      time := time + 1;
    }
    return Ok(nodeMatrix);
  }

  /** The walks listed at one step: the walk loop with the node loop inside. */
  method FillStep(M: array2<int>, walks: seq<seq<Node>>, time: int, ghost tm: TimeMap, rows: nat)
    returns (ok: bool)
    requires 0 <= time < M.Length1 && M.Length0 == rows && time in tm && tm[time] == walks
    requires TimeMapValid(tm, time, rows)
    requires forall a, b :: 0 <= a < rows && 0 <= b < M.Length1 ==>
      M[a, b] == if TimeMapCovers(tm, time, rows, a, b) then 1 else 0
    modifies M
    ensures ok <==> WalksValid(walks, |walks|, rows)
    ensures !ok ==> !TimeMapValid(tm, M.Length1, rows)
    ensures ok ==> TimeMapValid(tm, time + 1, rows)
    ensures ok ==> forall a, b :: 0 <= a < rows && 0 <= b < M.Length1 ==>
      M[a, b] == if TimeMapCovers(tm, time + 1, rows, a, b) then 1 else 0
  {
    for i := 0 to |walks|
      invariant WalksValid(walks, i, rows)
      invariant forall a, b :: 0 <= a < rows && 0 <= b < M.Length1 ==>
        M[a, b] == if TimeMapCovers(tm, time, rows, a, b) || (b == time && WalksHit(walks, i, rows, a)) then 1 else 0
    {
      var walk := walks[i];
      for j := 0 to |walk|
        invariant RowsValid(walk, j, rows)
        invariant forall a, b :: 0 <= a < rows && 0 <= b < M.Length1 ==>
          M[a, b] == if TimeMapCovers(tm, time, rows, a, b) || (b == time && (WalksHit(walks, i, rows, a) || RowHit(walk, j, rows, a))) then 1 else 0
      {
        var row := NumpyIndex(walk[j], rows);
        if row.None? {
          assert !RowsValid(walk, |walk|, rows);
          assert !WalksValid(walks, |walks|, rows);
          return false;
        }
        M[row.value, time] := 1;
        forall a | 0 <= a < rows
          ensures RowHit(walk, j + 1, rows, a) <==> RowHit(walk, j, rows, a) || NumpyIndex(walk[j], rows) == Some(a)
        {
          RowHitNext(walk, j, rows, a);
        }
      }
      forall a | 0 <= a < rows
        ensures WalksHit(walks, i + 1, rows, a) <==> WalksHit(walks, i, rows, a) || RowHit(walk, |walk|, rows, a)
      {
        WalksHitNext(walks, i, rows, a);
      }
    }
    return true;
  }

  // ---------------------------------------------------------------- agreement of the fills

  /** Every walk's interval lies inside the columns 0 .. cols - 1. */
  ghost predicate InColumns(es: seq<Timed>, cols: nat) {
    forall i :: 0 <= i < |es| ==> 0 <= es[i].lo && es[i].hi < cols
  }

  /**
    With every interval inside the matrix, reading the walks through the time map sets the same
    cells as reading them directly (column b of the matrix is the union of the paths active at b).
  */
  lemma {:induction false} ColumnIsUnion(es: seq<Timed>, rows: nat, cols: nat, a: int, b: int)
    requires InColumns(es, cols) && 0 <= b < cols
    ensures CoveredBy(es, |es|, rows, cols, a, b) <==> TimeMapCovers(ByTime(es), cols, rows, a, b)
  {
    if CoveredBy(es, |es|, rows, cols, a, b) {
      CoveredIsListed(es, rows, cols, a, b);
    }
    if TimeMapCovers(ByTime(es), cols, rows, a, b) {
      ListedIsCovered(es, rows, cols, a, b);
    }
  }

  /** A walk covering the entry is listed at its column of the time map. */
  lemma {:induction false} CoveredIsListed(es: seq<Timed>, rows: nat, cols: nat, a: int, b: int)
    requires InColumns(es, cols) && 0 <= b < cols && CoveredBy(es, |es|, rows, cols, a, b)
    ensures TimeMapCovers(ByTime(es), cols, rows, a, b)
  {
    var tm := ByTime(es);
    var i :| 0 <= i < |es| && Covers(es[i], rows, cols, a, b);
    var p := es[i].path;
    assert es[i].lo <= b <= es[i].hi by {
      var t :| es[i].lo <= t < es[i].hi + 1 && NumpyIndex(t, cols) == Some(b);
      assert t == b;
    }
    assert b in tm && p in tm[b] by {
      ByTimeKeys(es, b);
      ByTimeIsActiveAt(es, b);
      ActiveAtMembers(es, b, p);
    }
    var k :| 0 <= k < |tm[b]| && tm[b][k] == p;
    assert RowHit(tm[b][k], |tm[b][k]|, rows, a);
  }

  /** A path listed at the column marks the entry only if its walk covers it. */
  lemma {:induction false} ListedIsCovered(es: seq<Timed>, rows: nat, cols: nat, a: int, b: int)
    requires InColumns(es, cols) && 0 <= b < cols && TimeMapCovers(ByTime(es), cols, rows, a, b)
    ensures CoveredBy(es, |es|, rows, cols, a, b)
  {
    var tm := ByTime(es);
    var k :| 0 <= k < |tm[b]| && RowHit(tm[b][k], |tm[b][k]|, rows, a);
    ByTimeIsActiveAt(es, b);
    ActiveAtMembers(es, b, tm[b][k]);
    var i :| 0 <= i < |es| && es[i].lo <= b <= es[i].hi && es[i].path == tm[b][k];
    assert NumpyIndex(b, cols) == Some(b);
    assert ColHit(es[i].lo, es[i].hi + 1, cols, b);
    assert Covers(es[i], rows, cols, a, b);
  }


  /** With every interval inside the matrix, both fills refuse the same walks. */
  lemma {:induction false} ValidIsUnion(es: seq<Timed>, rows: nat, cols: nat)
    requires InColumns(es, cols)
    ensures AllValid(es, |es|, rows, cols) <==> TimeMapValid(ByTime(es), cols, rows)
  {
    var tm := ByTime(es);
    if AllValid(es, |es|, rows, cols) {
      forall t | 0 <= t < cols && t in tm
        ensures WalksValid(tm[t], |tm[t]|, rows)
      {
        ByTimeIsActiveAt(es, t);
        forall k | 0 <= k < |tm[t]|
          ensures RowsValid(tm[t][k], |tm[t][k]|, rows)
        {
          ActiveAtMembers(es, t, tm[t][k]);
          var i :| 0 <= i < |es| && es[i].lo <= t <= es[i].hi && es[i].path == tm[t][k];
          assert WalkValid(es[i], rows, cols);
        }
      }
    }
    if TimeMapValid(tm, cols, rows) {
      forall i | 0 <= i < |es|
        ensures WalkValid(es[i], rows, cols)
      {
        var e := es[i];
        if e.lo <= e.hi {
          ByTimeKeys(es, e.lo);
          ByTimeIsActiveAt(es, e.lo);
          ActiveAtMembers(es, e.lo, e.path);
          var k :| 0 <= k < |tm[e.lo]| && tm[e.lo][k] == e.path;
          assert RowsValid(tm[e.lo][k], |tm[e.lo][k]|, rows);
        }
      }
    }
  }

  /**
    The walks assignTimeSteps stamps lie inside the TS columns, so the genInputFile loop of
    POC/RandomWalksGenerator.py run over listByTime's map and genInputFile(walks) of
    POC/BaselineApp3.py set the same cells and fail on the same walks.  The generator itself runs
    that loop over the components aggregateRandomWalks derives from listByTime's map; module
    Pipeline carries the agreement on to that fill.
  */
  lemma {:induction false} DrawnWalksFillAlike(walks: seq<WalkEntry>, k: int, ts: nat, draws: nat -> nat, rows: nat)
    requires forall i :: 0 <= i < |walks| ==> DrawnInterval(walks[i].timeStep, draws(i), k, ts)
    ensures ParseWalks(Stamps(walks)).Ok?
    ensures InColumns(ParseWalks(Stamps(walks)).value, ts)
    ensures var es := ParseWalks(Stamps(walks)).value;
      && (AllValid(es, |es|, rows, ts) <==> TimeMapValid(ByTime(es), ts, rows))
      && forall a, b :: 0 <= b < ts ==>
           (CoveredBy(es, |es|, rows, ts, a, b) <==> TimeMapCovers(ByTime(es), ts, rows, a, b))
  {
    var es := ParseWalks(Stamps(walks)).value;
    ValidIsUnion(es, rows, ts);
    forall a, b | 0 <= b < ts
      ensures CoveredBy(es, |es|, rows, ts, a, b) <==> TimeMapCovers(ByTime(es), ts, rows, a, b)
    {
      ColumnIsUnion(es, rows, ts, a, b);
    }
  }

  // ---------------------------------------------------------------- TS = 10

  /**
    As written, POC/previous-versions/BaselineApp.py keys its third walk "8,11" with TS = 10:
    a node on that walk is written at column 10, past the last column 9, and the fill raises.
  */
  lemma {:induction false} AsWrittenScheduleOverflows(pathsData: seq<Stamped>, rows: nat)
    requires |pathsData| == |Schedule(10)| == 3
    requires forall j :: 0 <= j < |pathsData| ==> pathsData[j].timeStep == FormatInterval(Schedule(10)[j].0, Schedule(10)[j].1)
    requires |pathsData[2].path| > 0
    ensures ParseWalks(pathsData).Ok?
    ensures !AllValid(ParseWalks(pathsData).value, |pathsData|, rows, 10)
  {
    ScheduleTS10();
    forall j | 0 <= j < |pathsData|
      ensures ParseInterval(pathsData[j].timeStep).Ok?
    {
      IntervalRoundTrip(Schedule(10)[j].0, Schedule(10)[j].1);
    }
    var es := ParseWalks(pathsData).value;
    IntervalRoundTrip(8, 11);
    assert es[2].lo == 8 && es[2].hi == 11;
    assert NumpyIndex(10, 10).None?;
    assert !ColsValid(es[2].lo, es[2].hi + 1, 10);
  }

  /**
    With the last interval clamped, every pathsData generatePaths builds fills a TS-column
    matrix whenever the walks' nodes are rows of it.
  */
  lemma {:induction false} BoundedScheduleFills(pathsData: seq<Stamped>, rows: nat, ts: nat)
    requires |pathsData| == |BoundedSchedule(ts)|
    requires forall j :: 0 <= j < |pathsData| ==>
      pathsData[j].timeStep == FormatInterval(BoundedSchedule(ts)[j].0, BoundedSchedule(ts)[j].1)
    requires forall j, n :: 0 <= j < |pathsData| && 0 <= n < |pathsData[j].path| ==> 0 <= pathsData[j].path[n] < rows
    ensures ParseWalks(pathsData).Ok?
    ensures AllValid(ParseWalks(pathsData).value, |pathsData|, rows, ts)
  {
    BoundedScheduleShape(ts);
    var S := BoundedSchedule(ts);
    forall j | 0 <= j < |pathsData|
      ensures ParseInterval(pathsData[j].timeStep) == Ok(S[j])
    {
      IntervalRoundTrip(S[j].0, S[j].1);
    }
    var es := ParseWalks(pathsData).value;
    forall i | 0 <= i < |es|
      ensures WalkValid(es[i], rows, ts)
    {
      assert (es[i].lo, es[i].hi) == S[i];
      assert es[i].path == pathsData[i].path;
    }
  }
}
