/**
  The "start,end" time-interval strings the generators attach to each random walk: Python's
  str() on integers, str.split(',') and int(), and assignTimeSteps, which draws a start step
  and clamps the end step to the last one (POC/RandomWalksGenerator.py, POC/BaselineApp3.py,
  POC/BaselineApp2.py).
*/
module Intervals {
  import opened Wrappers
  import opened Graphs

  // ---------------------------------------------------------------- str() and int()

  predicate IsDigit(c: char) {
    '0' <= c <= '9'
  }

  predicate AllDigits(s: string) {
    forall i :: 0 <= i < |s| ==> IsDigit(s[i])
  }

  function DigitChar(d: nat): (c: char)
    requires d < 10
  {
    (('0' as int) + d) as char
  }

  /** The decimal digits of n, most significant first, without leading zeros. */
  function NatToString(n: nat): string
    decreases n
  {
    if n < 10 then [DigitChar(n)] else NatToString(n / 10) + [DigitChar(n % 10)]
  }

  /** Python's str() on an int. */
  function IntToString(i: int): string {
    if i < 0 then "-" + NatToString(-i) else NatToString(i)
  }

  /** The value of a string of decimal digits. */
  function DigitsValue(s: string): nat
    requires AllDigits(s)
  {
    if |s| == 0 then 0 else DigitsValue(s[..|s| - 1]) * 10 + (s[|s| - 1] as int - '0' as int)
  }

  /**
    Python's int() on a string: an optional sign followed by at least one decimal digit;
    anything else raises ValueError.
  */
  function ParseInt(s: string): (r: Result<int>)
    ensures r.Ok? ==> |s| > 0
    ensures r.Err? ==> r.error == ValueError
  {
    if |s| > 0 && (s[0] == '-' || s[0] == '+') then
      if |s| > 1 && AllDigits(s[1..]) then
        var v: int := DigitsValue(s[1..]);
        Ok(if s[0] == '-' then -v else v)
      else Err(ValueError)
    else if |s| > 0 && AllDigits(s) then Ok(DigitsValue(s))
    else Err(ValueError)
  }

  lemma {:induction false} NatToStringDigits(n: nat)
    ensures |NatToString(n)| > 0 && AllDigits(NatToString(n))
    ensures DigitsValue(NatToString(n)) == n
    decreases n
  {
    if n >= 10 {
      NatToStringDigits(n / 10);
      var s := NatToString(n);
      assert s[..|s| - 1] == NatToString(n / 10);
    }
  }

  /** int(str(i)) == i for every integer, negative ones included. */
  lemma {:induction false} IntRoundTrip(i: int)
    ensures ParseInt(IntToString(i)) == Ok(i)
    ensures ',' !in IntToString(i)
  {
    NatToStringDigits(if i < 0 then -i else i);
    var s := IntToString(i);
    if i < 0 {
      assert s[1..] == NatToString(-i);
    }
    assert forall k :: 0 <= k < |s| ==> IsDigit(s[k]) || s[k] == '-';
  }

  /** str(i) is a sign and digits, so it holds no comma. */
  lemma {:induction false} IntStringNoComma(i: int)
    ensures ',' !in IntToString(i)
  {
    NatToStringDigits(if i < 0 then -i else i);
    var s := IntToString(i);
    if i < 0 {
      assert s[1..] == NatToString(-i);
    }
    assert forall k :: 0 <= k < |s| ==> IsDigit(s[k]) || s[k] == '-';
  }

  // ---------------------------------------------------------------- str.split

  /** Python's str.split(sep) with an explicit one-character separator: every piece, empty ones too. */
  function Split(s: string, sep: char): (parts: seq<string>)
    ensures |parts| >= 1
    ensures forall i :: 0 <= i < |parts| ==> sep !in parts[i]
    decreases |s|
  {
    if |s| == 0 then [""]
    else if s[0] == sep then [""] + Split(s[1..], sep)
    else
      var rest := Split(s[1..], sep);
      [[s[0]] + rest[0]] + rest[1..]
  }

  /** sep.join(parts): the inverse of Split. */
  function Join(parts: seq<string>, sep: char): string
    requires |parts| >= 1
    decreases |parts|
  {
    if |parts| == 1 then parts[0] else parts[0] + [sep] + Join(parts[1..], sep)
  }

  /** Splitting loses nothing: joining the pieces with the separator gives the string back. */
  lemma {:induction false} JoinSplit(s: string, sep: char)
    ensures Join(Split(s, sep), sep) == s
    decreases |s|
  {
    if |s| > 0 {
      JoinSplit(s[1..], sep);
      var rest := Split(s[1..], sep);
      if s[0] == sep {
        assert Split(s, sep) == [""] + rest;
        assert (["", ""] + rest)[1..] == [""] + rest;
        assert ([""] + rest)[1..] == rest;
      } else {
        var parts := Split(s, sep);
        assert parts == [[s[0]] + rest[0]] + rest[1..];
        if |rest| == 1 {
          assert Join(rest, sep) == rest[0];
        } else {
          assert parts[1..] == rest[1..];
          assert Join(rest, sep) == rest[0] + [sep] + Join(rest[1..], sep);
        }
      }
    }
  }

  /** A piece without the separator, followed by it, is split off as the first piece. */
  lemma {:induction false} SplitAfter(a: string, sep: char, b: string)
    requires sep !in a
    ensures Split(a + [sep] + b, sep) == [a] + Split(b, sep)
    decreases |a|
  {
    if |a| > 0 {
      SplitAfter(a[1..], sep, b);
      assert (a + [sep] + b)[1..] == a[1..] + [sep] + b;
      assert [a[0]] + a[1..] == a;
    } else {
      assert a + [sep] + b == [sep] + b;
    }
  }

  /** A string without the separator is one piece. */
  lemma {:induction false} SplitNone(a: string, sep: char)
    requires sep !in a
    ensures Split(a, sep) == [a]
    decreases |a|
  {
    if |a| > 0 {
      SplitNone(a[1..], sep);
      assert [a[0]] + a[1..] == a;
    }
  }

  // ---------------------------------------------------------------- "start,end"

  /** str(startTime) + "," + str(endTime). */
  function FormatInterval(lo: int, hi: int): (r: string)
    ensures Split(r, ',') == [IntToString(lo), IntToString(hi)]
  {
    IntRoundTrip(lo);
    IntRoundTrip(hi);
    SplitAfter(IntToString(lo), ',', IntToString(hi));
    SplitNone(IntToString(hi), ',');
    assert IntToString(lo) + "," + IntToString(hi) == IntToString(lo) + [','] + IntToString(hi);
    IntToString(lo) + "," + IntToString(hi)
  }

  /**
    time = s.split(','); lowerBound = int(time[0]); upperBound = int(time[1]).  time[0] is read
    first, so a piece before the first comma that is not an integer raises ValueError even when
    there is no comma; only a string without a comma that is itself an integer fails on time[1].
    Pieces after the second are ignored.
  */
  function ParseInterval(s: string): (r: Result<(int, int)>)
    ensures r.Err? ==> r.error == ValueError || r.error == IndexOutOfRange(1)
    ensures ',' !in s ==> r.Err? && (r.error == IndexOutOfRange(1) <==> ParseInt(s).Ok?)
    ensures r.Err? && r.error == IndexOutOfRange(1) ==> ',' !in s
  {
    var parts := Split(s, ',');
    SplitSingle(s, ',');
    var lo :- ParseInt(parts[0]);
    if |parts| < 2 then Err(IndexOutOfRange(1))
    else
      var hi :- ParseInt(parts[1]);
      Ok((lo, hi))
  }

  /** s.split(sep) has a single piece exactly when sep does not occur, and the piece is then s. */
  lemma {:induction false} SplitSingle(s: string, sep: char)
    ensures |Split(s, sep)| == 1 <==> sep !in s
    ensures |Split(s, sep)| == 1 ==> Split(s, sep) == [s]
    decreases |s|
  {
    if |s| > 0 {
      SplitSingle(s[1..], sep);
      assert s == [s[0]] + s[1..];
    }
  }

  /** The interval strings the generators write are read back as the same pair. */
  lemma {:induction false} IntervalRoundTrip(lo: int, hi: int)
    ensures ParseInterval(FormatInterval(lo, hi)) == Ok((lo, hi))
  {
    IntRoundTrip(lo);
    IntRoundTrip(hi);
  }

  // ---------------------------------------------------------------- assignTimeSteps

  /** One walk with its time interval, as an entry "RandomWalk_i": [timeStep, path] of walksMap. */
  datatype WalkEntry = WalkEntry(name: string, timeStep: string, path: seq<Node>)

  /** endTime = startTime + k, brought back to maxTime when it runs past it. */
  function ClampedEnd(startTime: int, k: int, maxTime: int): int {
    if startTime + k > maxTime then maxTime else startTime + k
  }

  /** The clamped interval stays inside [1, maxTime] and is never empty when k is not negative. */
  lemma {:induction false} ClampedInterval(startTime: int, k: int, maxTime: int)
    requires 1 <= startTime <= maxTime
    ensures ClampedEnd(startTime, k, maxTime) <= maxTime
    ensures ClampedEnd(startTime, k, maxTime) == startTime + k || ClampedEnd(startTime, k, maxTime) == maxTime
    ensures k >= 0 ==> startTime <= ClampedEnd(startTime, k, maxTime)
  {
  }

  /**
    random.randint(1, maxTime) for the i-th walk: the oracle's draw brought into [1, maxTime].
  */
  function StartTime(draw: nat, maxTime: int): (r: int)
    requires maxTime >= 1
    ensures 1 <= r <= maxTime
  {
    1 + draw % maxTime
  }

  /**
    timeStep is the interval string assignTimeSteps writes for a walk whose start step was
    drawn with draw: it reads back as [startTime, clamped startTime + k].
  */
  predicate DrawnInterval(timeStep: string, draw: nat, k: int, ts: int) {
    && ts - 1 >= 1
    && var lo := StartTime(draw, ts - 1);
       ParseInterval(timeStep) == Ok((lo, ClampedEnd(lo, k, ts - 1)))
  }

  /** The string written for a drawn start step is a drawn interval. */
  lemma {:induction false} FormattedIsDrawn(draw: nat, k: int, ts: int)
    requires ts - 1 >= 1
    ensures var lo := StartTime(draw, ts - 1);
      DrawnInterval(FormatInterval(lo, ClampedEnd(lo, k, ts - 1)), draw, k, ts)
  {
    var lo := StartTime(draw, ts - 1);
    IntervalRoundTrip(lo, ClampedEnd(lo, k, ts - 1));
  }

  /** A drawn interval lies inside the time steps 1 .. TS - 1 and is not empty for k >= 0. */
  lemma {:induction false} DrawnIntervalBounds(timeStep: string, draw: nat, k: int, ts: int)
    requires DrawnInterval(timeStep, draw, k, ts)
    ensures ParseInterval(timeStep).Ok?
    ensures var (lo, hi) := ParseInterval(timeStep).value;
      1 <= lo <= ts - 1 && hi <= ts - 1 && (hi == lo + k || hi == ts - 1) && (k >= 0 ==> lo <= hi)
  {
    ClampedInterval(StartTime(draw, ts - 1), k, ts - 1);
  }

  /**
    assignTimeSteps: give every walk, in order, the name RandomWalk_1, RandomWalk_2, ... and
    the interval [startTime, endTime] with startTime drawn from [1, TS - 1] and endTime the
    clamped startTime + k.  randint on an empty range raises ValueError.  POC/BaselineApp2.py
    fixes k = 2 inside the function; the other files pass it in.
  */
  method AssignTimeSteps(randomWalks: seq<seq<Node>>, k: int, ts: int, draws: nat -> nat)
    returns (r: Result<seq<WalkEntry>>)
    ensures r.Err? <==> |randomWalks| > 0 && ts - 1 < 1
    ensures r.Err? ==> r.error == ValueError
    ensures r.Ok? ==> |r.value| == |randomWalks|
    ensures r.Ok? ==> forall i :: 0 <= i < |randomWalks| ==>
      && r.value[i].name == WalkName(i + 1)
      && r.value[i].path == randomWalks[i]
      && DrawnInterval(r.value[i].timeStep, draws(i), k, ts)
  {
    var randomWalksMap: seq<WalkEntry> := [];
    var maxTime := ts - 1;
    var i := 1;
    for w := 0 to |randomWalks|
      invariant i == w + 1 && (w > 0 ==> maxTime >= 1) && maxTime == ts - 1
      invariant AssignedSoFar(randomWalks, k, ts, draws, w, randomWalksMap)
    {
      if maxTime < 1 {
        return Err(ValueError);
      }
      var startTime := StartTime(draws(w), maxTime);
      var endTime := startTime + k;
      if endTime > maxTime {
        endTime := maxTime;
      }
      var timeStep := FormatInterval(startTime, endTime);
      AssignAdvance(randomWalks, k, ts, draws, w, randomWalksMap);
      randomWalksMap := randomWalksMap + [WalkEntry(WalkName(i), timeStep, randomWalks[w])];
      i := i + 1;
    }
    return Ok(randomWalksMap);
  }

  /** The key of the i-th walk of walksMap, counting from 1. */
  function WalkName(i: int): string {
    "RandomWalk_" + IntToString(i)
  }

  /** The loop's invariant: the first w walks carry their names and drawn intervals. */
  ghost predicate AssignedSoFar(randomWalks: seq<seq<Node>>, k: int, ts: int, draws: nat -> nat, w: int, entries: seq<WalkEntry>) {
    && 0 <= w <= |randomWalks| && |entries| == w
    && forall j :: 0 <= j < w ==>
      && entries[j].name == WalkName(j + 1)
      && entries[j].path == randomWalks[j]
      && DrawnInterval(entries[j].timeStep, draws(j), k, ts)
  }

  /** The entry of one more walk keeps the invariant. */
  lemma {:induction false} AssignAdvance(randomWalks: seq<seq<Node>>, k: int, ts: int, draws: nat -> nat, w: int, entries: seq<WalkEntry>)
    requires AssignedSoFar(randomWalks, k, ts, draws, w, entries) && w < |randomWalks| && ts - 1 >= 1
    ensures var lo := StartTime(draws(w), ts - 1);
      AssignedSoFar(randomWalks, k, ts, draws, w + 1,
                    entries + [WalkEntry(WalkName(w + 1), FormatInterval(lo, if lo + k > ts - 1 then ts - 1 else lo + k), randomWalks[w])])
  {
    var lo := StartTime(draws(w), ts - 1);
    FormattedIsDrawn(draws(w), k, ts);
    var e := WalkEntry(WalkName(w + 1), FormatInterval(lo, ClampedEnd(lo, k, ts - 1)), randomWalks[w]);
    forall j | 0 <= j < w + 1
      ensures (entries + [e])[j].name == WalkName(j + 1)
      ensures (entries + [e])[j].path == randomWalks[j]
      ensures DrawnInterval((entries + [e])[j].timeStep, draws(j), k, ts)
    {
      if j < w {
        assert (entries + [e])[j] == entries[j];
      }
    }
  }
}
