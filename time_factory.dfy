/**
 * Arrays of evenly spaced times between two bounds
 * (src/PH.Time/PH.Time/TimeFactory.cs). Each builder checks that `start`
 * is not after `end`, steps from `start` by its unit collecting every value
 * below `end` until a step lands on another day, and with `includeExtremes`
 * puts `start` first and `end` last. The C# `List<Time>` is a sequence that
 * the methods grow; `ToArray()` hands it out unchanged.
 */
module TimeFactory {
  import opened Int32Arith
  import opened PHTime
  import opened TimeExtensions

  /** `BuildTimeArrayBySteps`: the body only throws NotImplementedException. */
  method BuildTimeArrayBySteps(start: Time, end: Time, step: int32, stepPart: TimePart, includeExtremes: bool)
    returns (r: Result<seq<Time>>)
    ensures r.Err? && r.error == NotImplemented
  {
    r := Err(NotImplemented);
  }

  /** `ThrowIfBeginIsGratherThanEnd`: fails exactly when `start <= end` does not hold. */
  function ThrowIfBeginIsGreaterThanEnd(start: Time, end: Time): (r: Outcome)
    ensures r.Fail? <==> !Le(start, end)
    ensures r.Fail? ==> r.error == StartAfterEnd
  {
    if Gt(start, end) then Fail(StartAfterEnd) else Pass
  }

  // ---------------------------------------------------------------------------
  // The collecting loop and its specification

  /** The values stepped to from `x` by `d` seconds that stay on the same day
      and below `end`, in the order they are reached. */
  function StepRun(x: Time, end: Time, d: int): (run: seq<Time>)
    requires Valid(x) && d > 0
    decreases SecondsPerDay - SecondsOfDay(x)
  {
    var n := SecondsOfDay(x) + d;
    if n >= SecondsPerDay then []
    else
      var y := FromSecondsOfDay(n);
      if Lt(y, end) then [y] + StepRun(y, end, d) else []
  }

  /** The value a run continues from: its last element, or `x` while it is empty. */
  function RunLast(x: Time, run: seq<Time>): Time
  {
    if run == [] then x else run[|run| - 1]
  }

  /** A run in closed form: every element is a valid time below `end`, the
      first lies `d` seconds after `x` and each further one `d` seconds after
      the one before it, and one step more would leave the day or fail to be
      below `end`. */
  ghost predicate IsStepRun(x: Time, end: Time, d: int, run: seq<Time>)
    requires Valid(x) && d > 0
  {
    RunBelow(end, run) && RunSpaced(x, d, run) && RunMaximal(x, end, d, run)
  }

  ghost predicate RunBelow(end: Time, run: seq<Time>)
  {
    forall i :: 0 <= i < |run| ==> Valid(run[i]) && Lt(run[i], end)
  }

  ghost predicate RunSpaced(x: Time, d: int, run: seq<Time>)
  {
    && (run != [] ==> SecondsOfDay(run[0]) == SecondsOfDay(x) + d)
    && (forall i, j :: 0 <= i < j < |run| && j == i + 1 ==> SecondsOfDay(run[j]) == SecondsOfDay(run[i]) + d)
  }

  ghost predicate RunMaximal(x: Time, end: Time, d: int, run: seq<Time>)
    requires Valid(x) && d > 0 && RunBelow(end, run)
  {
    var last := RunLast(x, run);
    RunLastValid(x, end, run);
    SecondsOfDayRange(last);
    SecondsOfDay(last) + d >= SecondsPerDay || !Lt(FromSecondsOfDay(SecondsOfDay(last) + d), end)
  }

  lemma RunLastValid(x: Time, end: Time, run: seq<Time>)
    requires Valid(x) && RunBelow(end, run)
    ensures Valid(RunLast(x, run))
  {
    if run != [] {
      assert Valid(run[|run| - 1]);
    }
  }

  /** A run from `y`, the first step from `x`, preceded by `y` is a run from `x`. */
  lemma ConsIsStepRun(x: Time, end: Time, d: int, y: Time, tail: seq<Time>)
    requires Valid(x) && d > 0 && SecondsOfDay(x) + d < SecondsPerDay
    requires y == FromSecondsOfDay(SecondsOfDay(x) + d)
    requires Lt(y, end) && IsStepRun(y, end, d, tail)
    ensures IsStepRun(x, end, d, [y] + tail)
  {
    ConsBelow(end, y, tail);
    ConsSpaced(x, d, y, tail);
    RunLastCons(x, y, tail);
  }

  /** A non-empty run from `x` starts with the first step from `x` and goes on
      with a run from there. */
  lemma TailIsStepRun(x: Time, end: Time, d: int, run: seq<Time>)
    requires Valid(x) && d > 0 && run != []
    requires IsStepRun(x, end, d, run)
    ensures SecondsOfDay(x) + d < SecondsPerDay
    ensures run[0] == FromSecondsOfDay(SecondsOfDay(x) + d)
    ensures IsStepRun(run[0], end, d, run[1..])
  {
    SecondsOfDayRange(run[0]);
    SecondsOfDayInjective(run[0], FromSecondsOfDay(SecondsOfDay(x) + d));
    assert run == [run[0]] + run[1..];
    ConsBelow(end, run[0], run[1..]);
    TailSpaced(x, d, run);
    RunLastCons(x, run[0], run[1..]);
  }

  lemma ConsBelow(end: Time, y: Time, tail: seq<Time>)
    ensures RunBelow(end, [y] + tail) <==> Valid(y) && Lt(y, end) && RunBelow(end, tail)
  {
    var run := [y] + tail;
    assert run[0] == y;
    assert forall i :: 0 <= i < |tail| ==> run[i + 1] == tail[i];
  }

  lemma ConsSpaced(x: Time, d: int, y: Time, tail: seq<Time>)
    requires SecondsOfDay(y) == SecondsOfDay(x) + d && RunSpaced(y, d, tail)
    ensures RunSpaced(x, d, [y] + tail)
  {
    var run := [y] + tail;
    forall i, j | 0 <= i < j < |run| && j == i + 1
      ensures SecondsOfDay(run[j]) == SecondsOfDay(run[i]) + d
    {
      assert run[j] == tail[j - 1];
      if i > 0 {
        assert run[i] == tail[i - 1];
      }
    }
  }

  lemma TailSpaced(x: Time, d: int, run: seq<Time>)
    requires run != [] && RunSpaced(x, d, run)
    ensures RunSpaced(run[0], d, run[1..])
  {
    var tail := run[1..];
    forall i, j | 0 <= i < j < |tail| && j == i + 1
      ensures SecondsOfDay(tail[j]) == SecondsOfDay(tail[i]) + d
    {
      assert tail[i] == run[i + 1] && tail[j] == run[j + 1];
    }
    if tail != [] {
      assert tail[0] == run[1];
    }
  }

  lemma RunLastCons(x: Time, y: Time, tail: seq<Time>)
    ensures RunLast(x, [y] + tail) == RunLast(y, tail)
  {
  }

  lemma {:induction false} StepRunIsStepRun(x: Time, end: Time, d: int)
    requires Valid(x) && d > 0
    ensures IsStepRun(x, end, d, StepRun(x, end, d))
    decreases SecondsPerDay - SecondsOfDay(x)
  {
    SecondsOfDayRange(x);
    if SecondsOfDay(x) + d < SecondsPerDay && Lt(FromSecondsOfDay(SecondsOfDay(x) + d), end) {
      var y := FromSecondsOfDay(SecondsOfDay(x) + d);
      StepRunCons(x, end, d, y);
      StepRunIsStepRun(y, end, d);
      ConsIsStepRun(x, end, d, y, StepRun(y, end, d));
    } else {
      StepRunStops(x, end, d);
    }
  }

  /** When the first step `y` stays on the day and below `end`, the run starts with it. */
  lemma StepRunCons(x: Time, end: Time, d: int, y: Time)
    requires Valid(x) && d > 0 && SecondsOfDay(x) + d < SecondsPerDay
    requires y == FromSecondsOfDay(SecondsOfDay(x) + d) && Lt(y, end)
    ensures StepRun(x, end, d) == [y] + StepRun(y, end, d)
  {
  }

  /** Otherwise the run is empty. */
  lemma StepRunStops(x: Time, end: Time, d: int)
    requires Valid(x) && d > 0
    requires SecondsOfDay(x) + d >= SecondsPerDay || !Lt(FromSecondsOfDay(SecondsOfDay(x) + d), end)
    ensures StepRun(x, end, d) == []
    ensures IsStepRun(x, end, d, [])
  {
    assert RunLast(x, []) == x;
    assert RunBelow(end, []) && RunSpaced(x, d, []);
  }

  /** Only `StepRun` meets the closed form. */
  lemma {:induction false} IsStepRunUnique(x: Time, end: Time, d: int, run: seq<Time>)
    requires Valid(x) && d > 0
    requires IsStepRun(x, end, d, run)
    ensures run == StepRun(x, end, d)
    decreases |run|
  {
    SecondsOfDayRange(x);
    if run == [] {
      assert RunLast(x, run) == x;
      StepRunStops(x, end, d);
    } else {
      TailIsStepRun(x, end, d, run);
      assert Lt(run[0], end);
      StepRunCons(x, end, d, run[0]);
      IsStepRunUnique(run[0], end, d, run[1..]);
      assert run == [run[0]] + run[1..];
    }
  }

  /** `StepRun` is exactly the closed form: the one sequence that satisfies it. */
  lemma StepRunCharacterized(x: Time, end: Time, d: int, run: seq<Time>)
    requires Valid(x) && d > 0
    ensures IsStepRun(x, end, d, run) <==> run == StepRun(x, end, d)
  {
    StepRunIsStepRun(x, end, d);
    if IsStepRun(x, end, d, run) {
      IsStepRunUnique(x, end, d, run);
    }
  }

  /** Element `i` of a run lies `(i + 1) * d` seconds after `x`. */
  lemma StepRunOffsets(x: Time, end: Time, d: int)
    requires Valid(x) && d > 0
    ensures var run := StepRun(x, end, d);
      forall i :: 0 <= i < |run| ==> SecondsOfDay(run[i]) == SecondsOfDay(x) + (i + 1) * d
  {
    StepRunIsStepRun(x, end, d);
    var run := StepRun(x, end, d);
    forall i | 0 <= i < |run|
      ensures SecondsOfDay(run[i]) == SecondsOfDay(x) + (i + 1) * d
    {
      RunOffsetAt(x, d, run, i);
    }
  }

  lemma {:induction false} RunOffsetAt(x: Time, d: int, run: seq<Time>, i: nat)
    requires RunSpaced(x, d, run) && i < |run|
    ensures SecondsOfDay(run[i]) == SecondsOfDay(x) + (i + 1) * d
  {
    if i > 0 {
      RunOffsetAt(x, d, run, i - 1);
      assert (i + 1) * d == i * d + d;
    }
  }

  predicate StrictlyIncreasing(s: seq<Time>)
  {
    forall i, j :: 0 <= i < j < |s| ==> Lt(s[i], s[j])
  }

  /** `[start] + run` rises strictly when the run does and starts after `start`. */
  lemma PrependIncreasing(start: Time, run: seq<Time>)
    requires StrictlyIncreasing(run)
    requires forall i :: 0 <= i < |run| ==> Lt(start, run[i])
    ensures StrictlyIncreasing([start] + run)
  {
    var l := [start] + run;
    forall i, j | 0 <= i < j < |l|
      ensures Lt(l[i], l[j])
    {
      if i > 0 {
        assert l[i] == run[i - 1] && l[j] == run[j - 1];
      }
    }
  }

  /** The run rises strictly, starts after `x` and stays below `end`. */
  lemma {:induction false} StepRunOrdered(x: Time, end: Time, d: int)
    requires Valid(x) && d > 0
    ensures var run := StepRun(x, end, d);
      && StrictlyIncreasing(run)
      && (forall i :: 0 <= i < |run| ==> Valid(run[i]) && Lt(x, run[i]) && Lt(run[i], end))
    decreases SecondsPerDay - SecondsOfDay(x)
  {
    SecondsOfDayRange(x);
    if SecondsOfDay(x) + d < SecondsPerDay && Lt(FromSecondsOfDay(SecondsOfDay(x) + d), end) {
      var y := FromSecondsOfDay(SecondsOfDay(x) + d);
      StepRunCons(x, end, d, y);
      StepRunOrdered(y, end, d);
      CompareToMatchesSecondsOfDay(x, y);
      ConsOrdered(x, y, end, StepRun(y, end, d));
    } else {
      StepRunStops(x, end, d);
    }
  }

  /** `[y] + tail` keeps the order facts when `x < y` and `tail` has them from `y`. */
  lemma ConsOrdered(x: Time, y: Time, end: Time, tail: seq<Time>)
    requires Valid(y) && Lt(x, y) && Lt(y, end)
    requires StrictlyIncreasing(tail)
    requires forall i :: 0 <= i < |tail| ==> Valid(tail[i]) && Lt(y, tail[i]) && Lt(tail[i], end)
    ensures var run := [y] + tail;
      && StrictlyIncreasing(run)
      && (forall i :: 0 <= i < |run| ==> Valid(run[i]) && Lt(x, run[i]) && Lt(run[i], end))
  {
    PrependIncreasing(y, tail);
    var run := [y] + tail;
    forall i | 0 <= i < |run|
      ensures Valid(run[i]) && Lt(x, run[i]) && Lt(run[i], end)
    {
      if i > 0 {
        assert run[i] == tail[i - 1];
        LtTransitive(x, y, run[i]);
      }
    }
  }

  /** One iteration of the loop: the run from `x` is empty when the next step
      changes day or is not below `end`, and otherwise starts with that step. */
  lemma StepRunUnfold(x: Time, end: Time, part: TimePart)
    requires Valid(x)
    ensures var s := Next(x, part).value;
      StepRun(x, end, StepSeconds(part))
        == if s.otherDay || !Lt(s.time, end) then [] else [s.time] + StepRun(s.time, end, StepSeconds(part))
  {
    NextAdvances(x, part);
    UnfoldByStep(x, end, StepSeconds(part), Next(x, part).value);
  }

  /** `StepRunUnfold` for any step `s` that lands `d` seconds after `x` when it stays on the day. */
  lemma UnfoldByStep(x: Time, end: Time, d: int, s: Stepped)
    requires Valid(x) && d > 0 && Valid(s.time)
    requires s.otherDay <==> SecondsOfDay(x) + d >= SecondsPerDay
    requires !s.otherDay ==> SecondsOfDay(s.time) == SecondsOfDay(x) + d
    ensures StepRun(x, end, d) == if s.otherDay || !Lt(s.time, end) then [] else [s.time] + StepRun(s.time, end, d)
  {
    if s.otherDay {
      StepRunStops(x, end, d);
    } else {
      SecondsOfDayInjective(s.time, FromSecondsOfDay(SecondsOfDay(x) + d));
      if Lt(s.time, end) {
        StepRunCons(x, end, d, s.time);
      } else {
        StepRunStops(x, end, d);
      }
    }
  }

  /** A step that stays on the same day moves exactly `StepSeconds(part)` later. */
  lemma NextAdvances(x: Time, part: TimePart)
    requires Valid(x)
    ensures var s := Next(x, part).value;
      Valid(s.time) && (!s.otherDay ==> SecondsOfDay(s.time) == SecondsOfDay(x) + StepSeconds(part))
  {
    SecondsOfDayRange(x);
    StepOrder(x, part);
    ModDay(SecondsOfDay(x) + StepSeconds(part));
  }

  /** The `while` loop shared by the three builders: step from `start` by
      `part` while the value is below `end` and still on the same day. The
      `DateTime` behind the first step throws for an out-of-range `start`. */
  method CollectSteps(start: Time, end: Time, part: TimePart) returns (r: Result<seq<Time>>)
    ensures r.Ok? <==> Valid(start)
    ensures r.Err? ==> r.error == UnrepresentableDateTime
    ensures r.Ok? ==> r.value == StepRun(start, end, StepSeconds(part))
  {
    var first := Next(start, part);
    if first.Err? {
      return Err(first.error);
    }
    var x, onNextDay := first.value.time, first.value.otherDay;
    var l: seq<Time> := [];
    ghost var d := StepSeconds(part);
    NextAdvances(start, part);
    StepRunUnfold(start, end, part);
    while Lt(x, end) && !onNextDay
      invariant Valid(x)
      invariant l + (if onNextDay || !Lt(x, end) then [] else [x] + StepRun(x, end, d)) == StepRun(start, end, d)
      decreases if onNextDay then 0 else 1, SecondsPerDay - SecondsOfDay(x)
    {
      SecondsOfDayRange(x);
      NextAdvances(x, part);
      StepRunUnfold(x, end, part);
      assert (l + [x]) + StepRun(x, end, d) == l + ([x] + StepRun(x, end, d));
      l := l + [x];
      var next := Next(x, part);
      x, onNextDay := next.value.time, next.value.otherDay;
    }
    return Ok(l);
  }

  // ---------------------------------------------------------------------------
  // LINQ `Except`

  /** `first.Except(second)`: the distinct elements of `first` that are not
      in `second`, in their first order of appearance. */
  function Except(first: seq<Time>, second: seq<Time>): seq<Time>
  {
    ExceptFrom(first, set x | x in second)
  }

  function ExceptFrom(s: seq<Time>, seen: set<Time>): seq<Time>
    decreases |s|
  {
    if s == [] then []
    else if s[0] in seen then ExceptFrom(s[1..], seen)
    else [s[0]] + ExceptFrom(s[1..], seen + {s[0]})
  }

  /** LINQ's set difference: `Except` keeps exactly the elements of `first`
      that are not in `second`, each once. */
  lemma ExceptIsSetDifference(first: seq<Time>, second: seq<Time>)
    ensures forall x :: x in Except(first, second) <==> x in first && x !in second
    ensures forall i, j :: 0 <= i < j < |Except(first, second)| ==> Except(first, second)[i] != Except(first, second)[j]
  {
    ExceptFromSpec(first, set x | x in second);
  }

  lemma {:induction false} ExceptFromSpec(s: seq<Time>, seen: set<Time>)
    ensures forall x :: x in ExceptFrom(s, seen) <==> x in s && x !in seen
    ensures forall i, j :: 0 <= i < j < |ExceptFrom(s, seen)| ==> ExceptFrom(s, seen)[i] != ExceptFrom(s, seen)[j]
    decreases |s|
  {
    if s != [] {
      if s[0] in seen {
        ExceptFromSpec(s[1..], seen);
        assert forall x :: x in s <==> x == s[0] || x in s[1..];
      } else {
        var rest := ExceptFrom(s[1..], seen + {s[0]});
        ExceptFromSpec(s[1..], seen + {s[0]});
        assert forall x :: x in s <==> x == s[0] || x in s[1..];
        var r := [s[0]] + rest;
        assert forall x :: x in r <==> x == s[0] || x in rest;
        forall i, j | 0 <= i < j < |r|
          ensures r[i] != r[j]
        {
          assert r[j] == rest[j - 1];
          if i > 0 {
            assert r[i] == rest[i - 1];
          }
        }
      }
    }
  }

  lemma {:induction false} ExceptFromDropsLast(s: seq<Time>, seen: set<Time>)
    requires s != [] && s[|s| - 1] in seen
    requires forall i, j :: 0 <= i < j < |s| ==> s[i] != s[j]
    requires forall i :: 0 <= i < |s| - 1 ==> s[i] !in seen
    ensures ExceptFrom(s, seen) == s[..|s| - 1]
    decreases |s|
  {
    if |s| > 1 {
      assert s[0] != s[|s| - 1];
      var t := s[1..];
      forall i | 0 <= i < |t| - 1
        ensures t[i] !in seen + {s[0]}
      {
        assert t[i] == s[i + 1] && s[0] != s[i + 1];
      }
      ExceptFromDropsLast(t, seen + {s[0]});
      assert s[..|s| - 1] == [s[0]] + t[..|t| - 1];
    }
  }

  /** On a strictly increasing list, removing the last element by `Except`
      removes that element and nothing else. */
  lemma ExceptDropsLast(l: seq<Time>)
    requires l != [] && StrictlyIncreasing(l)
    ensures Except(l, [l[|l| - 1]]) == l[..|l| - 1]
  {
    var v := l[|l| - 1];
    assert forall y :: y in (set x | x in [v]) <==> y in [v];
    assert (set x | x in [v]) == {v};
    forall i, j | 0 <= i < j < |l|
      ensures l[i] != l[j]
    {
      assert Lt(l[i], l[j]);
    }
    ExceptFromDropsLast(l, {l[|l| - 1]});
  }

  // ---------------------------------------------------------------------------
  // The builders

  /** The unit `BuildTimeArray` builds by: `Minutes` and `Seconds` as named, any other part by hours. */
  function ArrayPart(part: TimePart): TimePart
  {
    if part == Minutes || part == Seconds then part else Hours
  }

  /** The list a builder returns once its loop has collected `run`: with
      `includeExtremes`, `start` first and `end` added last unless it is
      already there; building by hours, a last element in the hour of `end`
      gives way to `end`. */
  function WithExtremes(start: Time, end: Time, run: seq<Time>, byHours: bool, includeExtremes: bool): seq<Time>
  {
    var l := (if includeExtremes then [start] else []) + run;
    if !includeExtremes || end in l then l
    else if byHours && l[|l| - 1].Hours == end.Hours then l[..|l| - 1] + [end]
    else l + [end]
  }

  /** What the builders return. */
  function TimeArray(start: Time, end: Time, part: TimePart, includeExtremes: bool): Result<seq<Time>>
  {
    if Gt(start, end) then Err(StartAfterEnd)
    else if !Valid(start) then Err(UnrepresentableDateTime)
    else
      var d := StepSeconds(ArrayPart(part));
      Ok(WithExtremes(start, end, StepRun(start, end, d), ArrayPart(part) == Hours, includeExtremes))
  }

  /** `TimeArray` once the bounds are in order and `start` is in range. */
  lemma TimeArrayOfRun(start: Time, end: Time, part: TimePart, includeExtremes: bool, run: seq<Time>)
    requires !Gt(start, end) && Valid(start)
    requires run == StepRun(start, end, StepSeconds(ArrayPart(part)))
    ensures TimeArray(start, end, part, includeExtremes)
      == Ok(WithExtremes(start, end, run, ArrayPart(part) == Hours, includeExtremes))
  {
  }

  /** `Except` on `[start] + run` with its last element removes just that element. */
  lemma ExceptDropsLastOfRun(start: Time, end: Time, d: int)
    requires Valid(start) && d > 0
    ensures var l := [start] + StepRun(start, end, d);
      Except(l, [l[|l| - 1]]) == l[..|l| - 1]
  {
    StepRunOrdered(start, end, d);
    PrependIncreasing(start, StepRun(start, end, d));
    ExceptDropsLast([start] + StepRun(start, end, d));
  }

  /** `l.All(a => a != end)` holds exactly when `end` does not occur in `l`. */
  lemma AllDifferIffAbsent(l: seq<Time>, end: Time)
    ensures (forall i | 0 <= i < |l| :: Neq(l[i], end)) <==> end !in l
  {
    if end in l {
      var k :| 0 <= k < |l| && l[k] == end;
      assert !Neq(l[k], end);
    }
  }

  method BuildTimeArrayByHours(start: Time, end: Time, includeExtremes: bool) returns (r: Result<seq<Time>>)
    ensures r == TimeArray(start, end, Hours, includeExtremes)
  {
    var check := ThrowIfBeginIsGreaterThanEnd(start, end);
    if check.Fail? {
      return Err(check.error);
    }
    var l: seq<Time> := [];
    if includeExtremes {
      l := l + [start];
    }
    var steps := CollectSteps(start, end, Hours);
    if steps.Err? {
      return Err(steps.error);
    }
    ghost var run := steps.value;
    l := l + steps.value;
    AllDifferIffAbsent(l, end);
    if includeExtremes {
      assert Valid(start) && l == [start] + StepRun(start, end, StepSeconds(Hours));
      if forall i | 0 <= i < |l| :: Neq(l[i], end) {
        var last := l[|l| - 1];
        if last.Hours == end.Hours {
          ExceptDropsLastOfRun(start, end, StepSeconds(Hours));
          l := Except(l, [last]);
        }
        l := l + [end];
      }
    }
    assert l == WithExtremes(start, end, run, true, includeExtremes);
    TimeArrayOfRun(start, end, Hours, includeExtremes, run);
    return Ok(l);
  }

  method BuildTimeArrayByMinutes(start: Time, end: Time, includeExtremes: bool) returns (r: Result<seq<Time>>)
    ensures r == TimeArray(start, end, Minutes, includeExtremes)
  {
    var check := ThrowIfBeginIsGreaterThanEnd(start, end);
    if check.Fail? {
      return Err(check.error);
    }
    var l: seq<Time> := [];
    if includeExtremes {
      l := l + [start];
    }
    var steps := CollectSteps(start, end, Minutes);
    if steps.Err? {
      return Err(steps.error);
    }
    ghost var run := steps.value;
    l := l + steps.value;
    AllDifferIffAbsent(l, end);
    if includeExtremes {
      if forall i | 0 <= i < |l| :: Neq(l[i], end) {
        l := l + [end];
      }
    }
    assert l == WithExtremes(start, end, run, false, includeExtremes);
    TimeArrayOfRun(start, end, Minutes, includeExtremes, run);
    return Ok(l);
  }

  method BuildTimeArrayBySeconds(start: Time, end: Time, includeExtremes: bool) returns (r: Result<seq<Time>>)
    ensures r == TimeArray(start, end, Seconds, includeExtremes)
  {
    var check := ThrowIfBeginIsGreaterThanEnd(start, end);
    if check.Fail? {
      return Err(check.error);
    }
    var l: seq<Time> := [];
    if includeExtremes {
      l := l + [start];
    }
    var steps := CollectSteps(start, end, Seconds);
    if steps.Err? {
      return Err(steps.error);
    }
    ghost var run := steps.value;
    l := l + steps.value;
    AllDifferIffAbsent(l, end);
    if includeExtremes {
      if forall i | 0 <= i < |l| :: Neq(l[i], end) {
        l := l + [end];
      }
    }
    assert l == WithExtremes(start, end, run, false, includeExtremes);
    TimeArrayOfRun(start, end, Seconds, includeExtremes, run);
    return Ok(l);
  }

  /** `BuildTimeArray(start, end, buildByPart, includeExtremes)`; C#'s defaults are `Hours` and `true`. */
  method BuildTimeArray(start: Time, end: Time, buildByPart: TimePart, includeExtremes: bool) returns (r: Result<seq<Time>>)
    ensures r == TimeArray(start, end, buildByPart, includeExtremes)
  {
    match buildByPart
    case Minutes =>
      r := BuildTimeArrayByMinutes(start, end, includeExtremes);
    case Seconds =>
      r := BuildTimeArrayBySeconds(start, end, includeExtremes);
    case _ =>
      r := BuildTimeArrayByHours(start, end, includeExtremes);
  }

  // ---------------------------------------------------------------------------
  // Properties of the arrays

  lemma AppendIncreasing(l: seq<Time>, e: Time)
    requires StrictlyIncreasing(l)
    requires forall i :: 0 <= i < |l| ==> Lt(l[i], e)
    ensures StrictlyIncreasing(l + [e])
  {
    var m := l + [e];
    forall i, j | 0 <= i < j < |m|
      ensures Lt(m[i], m[j])
    {
      assert m[i] == l[i];
      if j < |l| {
        assert m[j] == l[j];
      }
    }
  }

  /** What the loop leaves behind, before `end` is looked at: it rises
      strictly, every element is a valid time from `start` on, and every
      element other than `start` is below `end`. */
  lemma CollectedOrdered(start: Time, end: Time, d: int, includeExtremes: bool)
    requires Valid(start) && d > 0
    ensures var l := (if includeExtremes then [start] else []) + StepRun(start, end, d);
      && StrictlyIncreasing(l)
      && (forall i :: 0 <= i < |l| ==> Valid(l[i]) && Le(start, l[i]) && (l[i] == start || Lt(l[i], end)))
      && (forall i :: 0 <= i < |l| ==> l[i] != start ==> Lt(start, l[i]))
  {
    var run := StepRun(start, end, d);
    StepRunOrdered(start, end, d);
    var l := (if includeExtremes then [start] else []) + run;
    if includeExtremes {
      PrependIncreasing(start, run);
    } else {
      assert l == run;
    }
    forall i | 0 <= i < |l|
      ensures Valid(l[i]) && Le(start, l[i]) && (l[i] == start || Lt(l[i], end))
    {
      OperatorLaws(start, l[i]);
      if includeExtremes && i > 0 {
        assert l[i] == run[i - 1];
      }
    }
  }

  /** A builder fails exactly when `start` is after `end`, or when `start`
      is out of range and the `DateTime` behind the first step throws. */
  lemma TimeArrayFails(start: Time, end: Time, part: TimePart, includeExtremes: bool)
    ensures TimeArray(start, end, part, includeExtremes).Err? <==> Gt(start, end) || !Valid(start)
    ensures Gt(start, end) ==> TimeArray(start, end, part, includeExtremes) == Err(StartAfterEnd)
    ensures Le(start, end) && !Valid(start) ==> TimeArray(start, end, part, includeExtremes) == Err(UnrepresentableDateTime)
  {
    OperatorLaws(start, end);
  }

  /** Every array rises strictly and lies within `[start, end]`; its
      elements are valid times, except possibly `end` itself. */
  lemma TimeArrayOrdered(start: Time, end: Time, part: TimePart, includeExtremes: bool)
    requires TimeArray(start, end, part, includeExtremes).Ok?
    ensures var a := TimeArray(start, end, part, includeExtremes).value;
      && StrictlyIncreasing(a)
      && (forall i :: 0 <= i < |a| ==> Le(start, a[i]) && Le(a[i], end) && (Valid(a[i]) || a[i] == end))
  {
    TimeArrayFails(start, end, part, includeExtremes);
    var d := StepSeconds(ArrayPart(part));
    var run := StepRun(start, end, d);
    CollectedOrdered(start, end, d, includeExtremes);
    TimeArrayOfRun(start, end, part, includeExtremes, run);
    ExtremesOrdered(start, end, run, ArrayPart(part) == Hours, includeExtremes);
  }

  /** The extremes rule keeps a collected list ordered and within `[start, end]`. */
  lemma ExtremesOrdered(start: Time, end: Time, run: seq<Time>, byHours: bool, includeExtremes: bool)
    requires !Gt(start, end)
    requires var l := (if includeExtremes then [start] else []) + run;
      && StrictlyIncreasing(l)
      && (forall i :: 0 <= i < |l| ==> Valid(l[i]) && Le(start, l[i]) && (l[i] == start || Lt(l[i], end)))
    ensures var a := WithExtremes(start, end, run, byHours, includeExtremes);
      && StrictlyIncreasing(a)
      && (forall i :: 0 <= i < |a| ==> Le(start, a[i]) && Le(a[i], end) && (Valid(a[i]) || a[i] == end))
  {
    var l := (if includeExtremes then [start] else []) + run;
    OperatorLaws(start, end);
    forall i | 0 <= i < |l|
      ensures Le(l[i], end)
    {
      OperatorLaws(l[i], end);
    }
    var a := WithExtremes(start, end, run, byHours, includeExtremes);
    if !includeExtremes || end in l {
      assert a == l;
    } else {
      var m := if byHours && l[|l| - 1].Hours == end.Hours then l[..|l| - 1] else l;
      assert a == m + [end];
      assert forall i :: 0 <= i < |m| ==> m[i] == l[i];
      forall i | 0 <= i < |m|
        ensures Lt(m[i], end)
      {
        assert l[i] in l;
        OperatorLaws(l[i], end);
      }
      AppendIncreasing(m, end);
      forall i | 0 <= i < |a|
        ensures Le(start, a[i]) && Le(a[i], end) && (Valid(a[i]) || a[i] == end)
      {
        if i == |m| {
          OperatorLaws(end, end);
        }
      }
    }
  }

  /** Without the extremes, the array is exactly the run: the times `start`
      plus `k` units for `k = 1, 2, ...`, each below `end` and on the same day,
      up to the first that is not. */
  lemma TimeArrayWithoutExtremes(start: Time, end: Time, part: TimePart)
    requires TimeArray(start, end, part, false).Ok?
    ensures IsStepRun(start, end, StepSeconds(ArrayPart(part)), TimeArray(start, end, part, false).value)
    ensures var a := TimeArray(start, end, part, false).value;
      var d := StepSeconds(ArrayPart(part));
      (forall i :: 0 <= i < |a| ==>
            SecondsOfDay(a[i]) == SecondsOfDay(start) + (i + 1) * d && Lt(start, a[i]) && Lt(a[i], end))
  {
    var d := StepSeconds(ArrayPart(part));
    var run := StepRun(start, end, d);
    OperatorLaws(start, end);
    TimeArrayOfRun(start, end, part, false, run);
    assert [] + run == run;
    StepRunIsStepRun(start, end, d);
    StepRunOrdered(start, end, d);
    forall i | 0 <= i < |run|
      ensures SecondsOfDay(run[i]) == SecondsOfDay(start) + (i + 1) * d
    {
      RunOffsetAt(start, d, run, i);
    }
  }

  /** Building by hours from a `start` in the same hour as `end`, the run is
      empty: the next hour either changes day or is past `end`. */
  lemma SameHourRunEmpty(start: Time, end: Time)
    requires Valid(start) && start.Hours == end.Hours
    ensures StepRun(start, end, StepSeconds(Hours)) == []
  {
    StepRunUnfold(start, end, Hours);
  }

  /** With the extremes, the array ends with `end`, every earlier element is
      below `end` (so `end` occurs once), and it starts with `start` except
      when building by hours from a `start` in the hour of `end` but before
      it: then that `start` gives way to `end`. */
  lemma TimeArrayExtremes(start: Time, end: Time, part: TimePart)
    requires TimeArray(start, end, part, true).Ok?
    ensures var a := TimeArray(start, end, part, true).value;
      && a != [] && a[|a| - 1] == end
      && (forall i :: 0 <= i < |a| - 1 ==> Lt(a[i], end))
      && (a[0] == start <==> !(ArrayPart(part) == Hours && start.Hours == end.Hours && start != end))
  {
    var d := StepSeconds(ArrayPart(part));
    var run := StepRun(start, end, d);
    var byHours := ArrayPart(part) == Hours;
    StepRunOrdered(start, end, d);
    OperatorLaws(start, end);
    if byHours && start.Hours == end.Hours {
      SameHourRunEmpty(start, end);
    }
    TimeArrayOfRun(start, end, part, true, run);
    WithExtremesEnds(start, end, run, byHours);
    TimeArrayOrdered(start, end, part, true);
    var a := TimeArray(start, end, part, true).value;
    forall i | 0 <= i < |a| - 1
      ensures Lt(a[i], end)
    {
      assert Lt(a[i], a[|a| - 1]);
    }
  }

  /** The extremes rule on a run that lies strictly between `start` and `end`. */
  lemma WithExtremesEnds(start: Time, end: Time, run: seq<Time>, byHours: bool)
    requires Le(start, end)
    requires forall i :: 0 <= i < |run| ==> Lt(start, run[i]) && Lt(run[i], end)
    requires byHours && start.Hours == end.Hours ==> run == []
    ensures var a := WithExtremes(start, end, run, byHours, true);
      && a != [] && a[|a| - 1] == end
      && (a[0] == start <==> !(byHours && start.Hours == end.Hours && start != end))
  {
    var l := [start] + run;
    var a := WithExtremes(start, end, run, byHours, true);
    if end in l {
      OperatorLaws(end, end);
      if run != [] {
        LtTransitive(start, run[0], end);
      }
      assert a == [end];
    } else if byHours && l[|l| - 1].Hours == end.Hours {
      if run == [] {
        assert a == [end];
      } else {
        assert a == l[..|l| - 1] + [end];
        assert a[0] == start;
      }
    } else {
      assert a == l + [end];
    }
  }

  /** `start == end` gives `[start]` with the extremes and nothing without. */
  lemma TimeArraySameBounds(t: Time, part: TimePart)
    requires Valid(t)
    ensures TimeArray(t, t, part, true) == Ok([t])
    ensures TimeArray(t, t, part, false) == Ok([])
  {
    var d := StepSeconds(ArrayPart(part));
    var run := StepRun(t, t, d);
    StepRunOrdered(t, t, d);
    OperatorLaws(t, t);
    if run != [] {
      LtTransitive(t, run[0], t);
    }
    TimeArrayOfRun(t, t, part, true, run);
    TimeArrayOfRun(t, t, part, false, run);
    assert [t] + run == [t];
    assert [] + run == [];
  }

  /** Building by hours from a `start` before `end` in the same hour gives just `[end]`. */
  lemma HoursSharedHourDropsStart(start: Time, end: Time)
    requires Valid(start) && Lt(start, end) && start.Hours == end.Hours
    ensures TimeArray(start, end, Hours, true) == Ok([end])
  {
    SameHourRunEmpty(start, end);
    OperatorLaws(start, end);
    TimeArrayOfRun(start, end, Hours, true, []);
    var l := [start] + [];
    assert l == [start] && end !in l;
    assert l[..|l| - 1] + [end] == [end];
  }

  // ---------------------------------------------------------------------------
  // The length of a run, and the worked arrays

  lemma DivOfDecomposition(a: int, d: int, q: int, r: int)
    requires d > 0 && 0 <= r < d && a == q * d + r
    ensures a / d == q
  {
    var q' := a / d;
    var r' := a % d;
    assert a == q' * d + r';
    assert (q - q') * d == r' - r;
    if q - q' >= 1 {
      MulAtLeast(q - q', d);
    } else if q' - q >= 1 {
      MulAtLeast(q' - q, d);
    }
  }

  lemma MulAtLeast(k: int, d: int)
    requires k >= 1 && d > 0
    ensures k * d >= d
  {
    assert k * d == (k - 1) * d + d;
  }

  lemma DivStep(a: int, d: int)
    requires a >= d > 0
    ensures a / d == (a - d) / d + 1
  {
    var q := (a - d) / d;
    var r := (a - d) % d;
    assert a - d == q * d + r;
    assert a == (q + 1) * d + r;
    DivOfDecomposition(a, d, q + 1, r);
  }

  /** Whole units of `d` strictly between second `s` and second `e`. */
  function UnitsBetween(s: int, e: int, d: int): int
    requires d > 0
  {
    if s < e then (e - s - 1) / d else 0
  }

  lemma UnitsBetweenStep(s: int, t: int, e: int, d: int)
    requires d > 0 && t == s + d && t < e
    ensures UnitsBetween(s, e, d) == UnitsBetween(t, e, d) + 1
  {
    DivStep(e - s - 1, d);
  }

  lemma UnitsBetweenNone(s: int, e: int, d: int)
    requires d > 0 && e <= s + d
    ensures UnitsBetween(s, e, d) == 0
  {
    if s < e {
      DivOfDecomposition(e - s - 1, d, 0, e - s - 1);
    }
  }

  /** Towards a valid `end` the run has one element per whole unit strictly
      between `start` and `end`. */
  lemma {:induction false} StepRunLength(x: Time, end: Time, d: int)
    requires Valid(x) && Valid(end) && d > 0
    ensures |StepRun(x, end, d)| == UnitsBetween(SecondsOfDay(x), SecondsOfDay(end), d)
    decreases SecondsPerDay - SecondsOfDay(x)
  {
    SecondsOfDayRange(x);
    SecondsOfDayRange(end);
    if SecondsOfDay(x) + d < SecondsPerDay && Lt(FromSecondsOfDay(SecondsOfDay(x) + d), end) {
      var y := FromSecondsOfDay(SecondsOfDay(x) + d);
      CompareToMatchesSecondsOfDay(y, end);
      StepRunCons(x, end, d, y);
      StepRunLength(y, end, d);
      UnitsBetweenStep(SecondsOfDay(x), SecondsOfDay(y), SecondsOfDay(end), d);
    } else {
      if SecondsOfDay(x) + d < SecondsPerDay {
        CompareToMatchesSecondsOfDay(FromSecondsOfDay(SecondsOfDay(x) + d), end);
      }
      StepRunStops(x, end, d);
      UnitsBetweenNone(SecondsOfDay(x), SecondsOfDay(end), d);
    }
  }

  lemma Hours24(t: Time, n: int)
    requires 0 <= n < 24 && Valid(t) && SecondsOfDay(t) == n * 3600
    ensures t == Time(n, 0, 0)
  {
    SecondsOfDayInjective(t, Time(n, 0, 0));
  }

  /** Every element of a run is a valid time below `end`. */
  lemma StepRunBelow(x: Time, end: Time, d: int)
    requires Valid(x) && d > 0
    ensures forall i :: 0 <= i < |StepRun(x, end, d)| ==> Valid(StepRun(x, end, d)[i]) && Lt(StepRun(x, end, d)[i], end)
  {
    StepRunOrdered(x, end, d);
  }

  /** A sequence of times below `end` does not hold `end`. */
  lemma NotInRun(run: seq<Time>, end: Time)
    requires forall i :: 0 <= i < |run| ==> Lt(run[i], end)
    ensures end !in run
  {
  }

  /** `BuildTimeArray(MinValue, MaxValue)` has 24 elements, with 01:00:00 at
      index 1 and 23:59:59 at index 23: 23:00:00 gives way to 23:59:59. */
  lemma TimeArrayHoursOfDay()
    ensures TimeArray(MinValue, MaxValue, Hours, true).Ok?
    ensures var a := TimeArray(MinValue, MaxValue, Hours, true).value;
      |a| == 24 && a[1] == Time(1, 0, 0) && a[23] == MaxValue
  {
    DayBounds();
    HoursOfDay(MinValue, MaxValue);
  }

  /** The same for any bounds at seconds 0 and 86399 of the day, so that the
      run is not unfolded step by step. */
  lemma HoursOfDay(start: Time, end: Time)
    requires Valid(start) && SecondsOfDay(start) == 0
    requires Valid(end) && SecondsOfDay(end) == SecondsPerDay - 1
    ensures TimeArray(start, end, Hours, true).Ok?
    ensures var a := TimeArray(start, end, Hours, true).value;
      |a| == 24 && a[1] == Time(1, 0, 0) && a[23] == end
  {
    var d := StepSeconds(Hours);
    var run := StepRun(start, end, d);
    OperatorLaws(start, end);
    TimeArrayOfRun(start, end, Hours, true, run);
    StepRunLength(start, end, d);
    assert |run| == 23;
    StepRunOffsets(start, end, d);
    StepRunBelow(start, end, d);
    Hours24(run[0], 1);
    Hours24(run[22], 23);
    var l := [start] + run;
    assert start != end;
    NotInRun(run, end);
    assert end.Hours == 23;
    assert l[|l| - 1].Hours == end.Hours;
  }

  /** Building by minutes or seconds between two valid times `start < end`
      gives one element per whole unit strictly between them, plus the two
      extremes when they are included. */
  lemma TimeArrayLength(start: Time, end: Time, part: TimePart, includeExtremes: bool)
    requires Valid(start) && Valid(end) && Lt(start, end) && ArrayPart(part) != Hours
    ensures TimeArray(start, end, part, includeExtremes).Ok?
    ensures |TimeArray(start, end, part, includeExtremes).value|
      == UnitsBetween(SecondsOfDay(start), SecondsOfDay(end), StepSeconds(part)) + (if includeExtremes then 2 else 0)
  {
    var d := StepSeconds(ArrayPart(part));
    var run := StepRun(start, end, d);
    OperatorLaws(start, end);
    OperatorLaws(end, end);
    StepRunLength(start, end, d);
    StepRunOrdered(start, end, d);
    TimeArrayOfRun(start, end, part, includeExtremes, run);
    var l := (if includeExtremes then [start] else []) + run;
    assert end !in l;
  }

  /** `BuildTimeArray(MinValue, MaxValue, Seconds, true)` has 86400 elements. */
  lemma TimeArraySecondsOfDay()
    ensures TimeArray(MinValue, MaxValue, Seconds, true).Ok?
    ensures |TimeArray(MinValue, MaxValue, Seconds, true).value| == 86400
  {
    DayBounds();
    SecondsOfWholeDay(MinValue, MaxValue);
  }

  /** The same for any bounds at seconds 0 and 86399 of the day. */
  lemma SecondsOfWholeDay(start: Time, end: Time)
    requires Valid(start) && SecondsOfDay(start) == 0
    requires Valid(end) && SecondsOfDay(end) == SecondsPerDay - 1
    ensures TimeArray(start, end, Seconds, true).Ok?
    ensures |TimeArray(start, end, Seconds, true).value| == 86400
  {
    CompareToMatchesSecondsOfDay(start, end);
    TimeArrayLength(start, end, Seconds, true);
  }

  const OneMinute: Time := Time(0, 1, 0)
  const TwoMinutes: Time := Time(0, 2, 0)

  /** `BuildTimeArray(MinValue, 00:02:00, Minutes, false)` is `[00:01:00]`. */
  lemma TimeArrayTwoMinutes()
    ensures TimeArray(MinValue, TwoMinutes, Minutes, false) == Ok([OneMinute])
  {
    DayBounds();
    FirstMinutes();
    FirstTwoMinutes(MinValue, OneMinute, TwoMinutes);
  }

  lemma FirstMinutes()
    ensures Valid(OneMinute) && SecondsOfDay(OneMinute) == 60
    ensures Valid(TwoMinutes) && SecondsOfDay(TwoMinutes) == 120
  {
  }

  /** The same for any times at seconds 0, 60 and 120 of the day. */
  lemma FirstTwoMinutes(start: Time, m: Time, end: Time)
    requires Valid(start) && SecondsOfDay(start) == 0
    requires Valid(m) && SecondsOfDay(m) == 60
    requires Valid(end) && SecondsOfDay(end) == 120
    ensures TimeArray(start, end, Minutes, false) == Ok([m])
  {
    CompareToMatchesSecondsOfDay(start, end);
    TimeArrayLength(start, end, Minutes, false);
    TimeArrayWithoutExtremes(start, end, Minutes);
    var a := TimeArray(start, end, Minutes, false).value;
    assert |a| == 1;
    SecondsOfDayInjective(a[0], m);
    assert a == [m];
  }

  /** Reversed bounds fail, and equal bounds by seconds give `[MinValue]` or nothing. */
  lemma TimeArrayBoundsExamples()
    ensures TimeArray(MaxValue, MinValue, Hours, true) == Err(StartAfterEnd)
    ensures TimeArray(MinValue, MinValue, Seconds, true) == Ok([MinValue])
    ensures TimeArray(MinValue, MinValue, Seconds, false) == Ok([])
  {
    TimeArrayFails(MaxValue, MinValue, Hours, true);
    TimeArraySameBounds(MinValue, Seconds);
  }
}
