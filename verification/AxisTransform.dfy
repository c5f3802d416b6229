// Local time projected onto beacon time: transform_axis and the back-projection of
// parser.  Floats are modelled as reals.
module AxisTransform {
  import opened Sequences

  datatype Result = Ok(axis: seq<real>) | UnboundLocalError | ZeroDivisionError

  // ---------------------------------------------------------------- beacon runs

  // The value that stands for "no beacon yet".
  const MARKER: real := -1.0

  // Position i starts a run of equal beacon values; a leading run of marker values
  // does not count.
  predicate IsStart(beacon: seq<real>, i: nat)
    requires i < |beacon|
  {
    beacon[i] != if i == 0 then MARKER else beacon[i - 1]
  }

  function Starts(beacon: seq<real>): (s: seq<nat>)
    ensures forall k | 0 <= k < |s| :: s[k] < |beacon| && IsStart(beacon, s[k])
    ensures forall j, k | 0 <= j < k < |s| :: s[j] < s[k]
  {
    if beacon == [] then []
    else
      var n := |beacon| - 1;
      var s := Starts(beacon[..n]);
      assert forall k | 0 <= k < |s| :: IsStart(beacon[..n], s[k]) && IsStart(beacon, s[k]);
      if IsStart(beacon, n) then s + [n] else s
  }

  // Every start is listed.
  lemma {:induction false} StartsComplete(beacon: seq<real>, i: nat)
    requires i < |beacon| && IsStart(beacon, i)
    ensures i in Starts(beacon)
  {
    var n := |beacon| - 1;
    if i < n {
      assert IsStart(beacon[..n], i);
      StartsComplete(beacon[..n], i);
    }
  }

  // ------------------------------------------------------------------ the new axis

  // How far x lies on the way from one local time to another.
  function Ratio(x: real, from: real, to: real): real
    requires to != from
  {
    (x - from) / (to - from)
  }

  // The value that far on the way between two beacons.
  function Blend(q: real, from: real, to: real): real { q * (to - from) + from }

  // Where the i-th local time falls between the beacons of a run's start and end.
  function Interpolate(local: seq<real>, beacon: seq<real>, start: nat, end: nat, i: nat): real
    requires |local| == |beacon| && start < end < |local| && i < |local| && local[end] != local[start]
  {
    Blend(Ratio(local[i], local[start], local[end]), beacon[start], beacon[end])
  }

  function Segment(local: seq<real>, beacon: seq<real>, start: nat, end: nat, upto: nat): (s: seq<real>)
    requires |local| == |beacon| && start < end < |local| && start <= upto <= end && local[end] != local[start]
    ensures |s| == upto - start
  {
    if upto == start then [] else Segment(local, beacon, start, end, upto - 1) + [Interpolate(local, beacon, start, end, upto - 1)]
  }

  predicate Listed(s: seq<nat>, n: nat) {
    && (forall k | 0 <= k < |s| :: s[k] < n)
    && (forall j, k | 0 <= j < k < |s| :: s[j] < s[k])
  }

  // Local time does not stand still over the m-th run.
  predicate MovesAt(local: seq<real>, s: seq<nat>, m: nat)
    requires Listed(s, |local|) && 0 < m < |s|
  {
    local[s[m]] != local[s[m - 1]]
  }

  // Local time stands still over none of the first k runs.
  predicate Moving(local: seq<real>, s: seq<nat>, k: nat)
    requires Listed(s, |local|) && k < |s|
  {
    forall m | 0 < m <= k :: MovesAt(local, s, m)
  }

  // The axis over the first k runs.
  function Runs(local: seq<real>, beacon: seq<real>, s: seq<nat>, k: nat): seq<real>
    requires |local| == |beacon| && Listed(s, |local|) && k < |s| && Moving(local, s, k)
  {
    if k == 0 then []
    else
      assert MovesAt(local, s, k);
      Runs(local, beacon, s, k - 1) + Segment(local, beacon, s[k - 1], s[k], s[k])
  }

  function Axis(local: seq<real>, beacon: seq<real>): Result
    requires |local| == |beacon|
  {
    AxisFrom(local, beacon, Starts(beacon))
  }

  function AxisFrom(local: seq<real>, beacon: seq<real>, s: seq<nat>): Result
    requires |local| == |beacon| && Listed(s, |local|)
  {
    if |s| < 2 then UnboundLocalError
    else if !Moving(local, s, |s| - 1) then ZeroDivisionError
    else Ok(AxisOver(local, beacon, s))
  }

  lemma {:induction false} RunsStep(local: seq<real>, beacon: seq<real>, s: seq<nat>, k: nat)
    requires |local| == |beacon| && Listed(s, |local|) && 0 < k < |s| && Moving(local, s, k - 1)
    requires MovesAt(local, s, k)
    ensures Moving(local, s, k)
    ensures Runs(local, beacon, s, k) == Runs(local, beacon, s, k - 1) + Segment(local, beacon, s[k - 1], s[k], s[k])
  {
  }

  // The axis for given run starts: all runs and the beacon value of the last start.
  function AxisOver(local: seq<real>, beacon: seq<real>, s: seq<nat>): seq<real>
    requires |local| == |beacon| && Listed(s, |local|) && s != [] && Moving(local, s, |s| - 1)
  {
    Runs(local, beacon, s, |s| - 1) + [beacon[s[|s| - 1]]]
  }

  // With fewer than two runs the loop leaves the end value of the last run unbound.
  method TransformAxis(local: seq<real>, beacon: seq<real>) returns (r: Result)
    requires |local| == |beacon|
    ensures r == Axis(local, beacon)
  {
    var starts := FindRuns(beacon);
    r := TransformFrom(local, beacon, starts);
  }

  // The loops over the runs, and the last value after them.
  method TransformFrom(local: seq<real>, beacon: seq<real>, starts: seq<nat>) returns (r: Result)
    requires |local| == |beacon| && Listed(starts, |local|)
    ensures r == AxisFrom(local, beacon, starts)
  {
    var ok, axis := TransformRuns(local, beacon, starts);
    if |starts| < 2 {
      return UnboundLocalError;
    }
    if !ok {
      return ZeroDivisionError;
    }
    axis := axis + [beacon[starts[|starts| - 1]]];
    return Ok(axis);
  }

  // The outer loop over the runs.
  method TransformRuns(local: seq<real>, beacon: seq<real>, starts: seq<nat>) returns (ok: bool, axis: seq<real>)
    requires |local| == |beacon| && Listed(starts, |local|)
    ensures |starts| > 0 ==> (ok <==> Moving(local, starts, |starts| - 1))
    ensures |starts| > 0 && ok ==> axis == Runs(local, beacon, starts, |starts| - 1)
  {
    axis := [];
    var k := 1;
    while k < |starts|
      invariant 1 <= k && (k <= |starts| || |starts| == 0)
      invariant |starts| > 0 ==> Moving(local, starts, k - 1) && axis == Runs(local, beacon, starts, k - 1)
    {
      var segment;
      ok, segment := TransformRun(local, beacon, starts[k - 1], starts[k]);
      if !ok {
        NotMoving(local, starts, k);
        return;
      }
      RunsStep(local, beacon, starts, k);
      axis := axis + segment;
      k := k + 1;
    }
    ok := true;
  }

  lemma {:induction false} NotMoving(local: seq<real>, s: seq<nat>, k: nat)
    requires Listed(s, |local|) && 0 < k < |s| && !MovesAt(local, s, k)
    ensures !Moving(local, s, |s| - 1)
  {
  }

  // The inner loop; not ok stands for the ZeroDivisionError of its first turn.
  method TransformRun(local: seq<real>, beacon: seq<real>, start: nat, end: nat) returns (ok: bool, segment: seq<real>)
    requires |local| == |beacon| && start < end < |local|
    ensures ok <==> local[end] != local[start]
    ensures ok ==> segment == Segment(local, beacon, start, end, end)
  {
    segment := [];
    if local[end] - local[start] == 0.0 {
      return false, segment;
    }
    var i := start;
    while i < end
      invariant start <= i <= end && segment == Segment(local, beacon, start, end, i)
    {
      var transformed := Ratio(local[i], local[start], local[end]);
      transformed := Blend(transformed, beacon[start], beacon[end]);
      segment := segment + [transformed];
      i := i + 1;
    }
    ok := true;
  }

  // The loop that collects the runs.
  method FindRuns(beacon: seq<real>) returns (starts: seq<nat>)
    ensures starts == Starts(beacon)
  {
    starts := [];
    var lastBeaconValue := MARKER;
    var i := 0;
    while i < |beacon|
      invariant 0 <= i <= |beacon|
      invariant starts == Starts(beacon[..i])
      invariant lastBeaconValue == if i == 0 then MARKER else beacon[i - 1]
    {
      var current := beacon[i];
      assert beacon[..i + 1][..i] == beacon[..i];
      i := i + 1;
      if current == lastBeaconValue {
        continue;
      }
      starts := starts + [i - 1];
      lastBeaconValue := current;
    }
    assert beacon[..i] == beacon;
  }

  // ------------------------------------------------------------------ its positions

  // Index i lies in the m-th run.
  predicate InRun(s: seq<nat>, m: nat, i: nat) { 0 < m < |s| && s[m - 1] <= i < s[m] }

  lemma {:induction false} RunsLength(local: seq<real>, beacon: seq<real>, s: seq<nat>, k: nat)
    requires |local| == |beacon| && Listed(s, |local|) && k < |s| && Moving(local, s, k)
    ensures |Runs(local, beacon, s, k)| == s[k] - s[0]
  {
    if k > 0 { RunsLength(local, beacon, s, k - 1); }
  }

  lemma {:induction false} ListedOrder(s: seq<nat>, n: nat, j: nat, k: nat)
    requires Listed(s, n) && j <= k < |s|
    ensures s[j] <= s[k]
  {
  }

  lemma {:induction false} SegmentAt(local: seq<real>, beacon: seq<real>, start: nat, end: nat, upto: nat, i: nat)
    requires |local| == |beacon| && start < end < |local| && start <= i < upto <= end && local[end] != local[start]
    ensures Segment(local, beacon, start, end, upto)[i - start] == Interpolate(local, beacon, start, end, i)
  {
    if i < upto - 1 { SegmentAt(local, beacon, start, end, upto - 1, i); }
  }

  lemma {:induction false} RunsAt(local: seq<real>, beacon: seq<real>, s: seq<nat>, k: nat, m: nat, i: nat)
    requires |local| == |beacon| && Listed(s, |local|) && k < |s| && Moving(local, s, k)
    requires InRun(s, m, i) && m <= k && MovesAt(local, s, m)
    ensures 0 <= i - s[0] < |Runs(local, beacon, s, k)|
    ensures Runs(local, beacon, s, k)[i - s[0]] == Interpolate(local, beacon, s[m - 1], s[m], i)
  {
    RunsLength(local, beacon, s, k - 1);
    ListedOrder(s, |local|, 0, m - 1);
    assert MovesAt(local, s, k);
    RunsStep(local, beacon, s, k);
    var runs, segment := Runs(local, beacon, s, k - 1), Segment(local, beacon, s[k - 1], s[k], s[k]);
    if m < k {
      RunsAt(local, beacon, s, k - 1, m, i);
      AppendAt(runs, segment, i - s[0]);
    } else {
      SegmentAt(local, beacon, s[k - 1], s[k], s[k], i);
      AppendAt(runs, segment, i - s[0]);
    }
  }

  lemma AppendAt(x: seq<real>, y: seq<real>, i: nat)
    requires i < |x| + |y|
    ensures (x + y)[i] == if i < |x| then x[i] else y[i - |x|]
  {
  }

  // Every value of the axis but the last is interpolated in its run.
  lemma {:induction false} OverAt(local: seq<real>, beacon: seq<real>, s: seq<nat>, m: nat, i: nat)
    requires |local| == |beacon| && Listed(s, |local|) && s != [] && Moving(local, s, |s| - 1) && InRun(s, m, i)
    ensures 0 <= i - s[0] < |AxisOver(local, beacon, s)| - 1 && local[s[m]] != local[s[m - 1]]
    ensures AxisOver(local, beacon, s)[i - s[0]] == Interpolate(local, beacon, s[m - 1], s[m], i)
  {
    assert MovesAt(local, s, m);
    RunsAt(local, beacon, s, |s| - 1, m, i);
  }

  lemma {:induction false} OverLength(local: seq<real>, beacon: seq<real>, s: seq<nat>)
    requires |local| == |beacon| && Listed(s, |local|) && s != [] && Moving(local, s, |s| - 1)
    ensures var axis, last := AxisOver(local, beacon, s), |s| - 1;
            |axis| == s[last] - s[0] + 1 && axis[s[last] - s[0]] == beacon[s[last]]
  {
    RunsLength(local, beacon, s, |s| - 1);
  }

  // At a start the axis has the beacon's own value.
  lemma {:induction false} OverStart(local: seq<real>, beacon: seq<real>, s: seq<nat>, m: nat)
    requires |local| == |beacon| && Listed(s, |local|) && s != [] && Moving(local, s, |s| - 1) && m < |s|
    ensures 0 <= s[m] - s[0] < |AxisOver(local, beacon, s)|
    ensures AxisOver(local, beacon, s)[s[m] - s[0]] == beacon[s[m]]
  {
    if m == |s| - 1 {
      OverLength(local, beacon, s);
    } else {
      assert MovesAt(local, s, m + 1);
      OverAt(local, beacon, s, m + 1, s[m]);
      AtStart(local, beacon, s[m], s[m + 1]);
    }
  }

  lemma AtStart(local: seq<real>, beacon: seq<real>, start: nat, end: nat)
    requires |local| == |beacon| && start < end < |local| && local[end] != local[start]
    ensures Interpolate(local, beacon, start, end, start) == beacon[start]
  {
  }

  // The position in the list of the run that an index belongs to.
  lemma {:induction false} RunOf(s: seq<nat>, n: nat, i: nat) returns (m: nat)
    requires Listed(s, n) && |s| > 1 && s[0] <= i < s[|s| - 1]
    ensures InRun(s, m, i)
  {
    m := 1;
    while s[m] <= i
      invariant 0 < m < |s| && s[m - 1] <= i
      decreases |s| - m
    {
      m := m + 1;
    }
  }

  // The axis starts at the first run and ends at the start of the last one, has one
  // value for each local time in between, and has the beacon's own value at every
  // start.
  lemma {:induction false} AxisShape(local: seq<real>, beacon: seq<real>)
    requires |local| == |beacon| && Axis(local, beacon).Ok?
    ensures var s, axis := Starts(beacon), Axis(local, beacon).axis;
            && |axis| == s[|s| - 1] - s[0] + 1
            && forall m | 0 <= m < |s| :: 0 <= s[m] - s[0] < |axis| && axis[s[m] - s[0]] == beacon[s[m]]
  {
    var s := Starts(beacon);
    OverLength(local, beacon, s);
    forall m | 0 <= m < |s| ensures 0 <= s[m] - s[0] < |AxisOver(local, beacon, s)|
                                    && AxisOver(local, beacon, s)[s[m] - s[0]] == beacon[s[m]] {
      OverStart(local, beacon, s, m);
    }
  }

  // ------------------------------------------------------------------- linearity

  // The point (t, v) lies on the line through (t0, v0) and (t1, v1).
  predicate OnLine(t: real, v: real, t0: real, v0: real, t1: real, v1: real) {
    (v - v0) * (t1 - t0) == (t - t0) * (v1 - v0)
  }

  lemma {:induction false} QuotientCancels(x: real, y: real, d: real)
    requires y != 0.0
    ensures x / y * d * y == x * d
  {
    var q := x / y;
    assert q * y == x;
    Exchange(d, q, y);
  }

  // Two different local times leave one value on a line.
  lemma {:induction false} OneOnLine(t: real, v: real, w: real, t0: real, v0: real, t1: real, v1: real)
    requires t1 != t0 && OnLine(t, v, t0, v0, t1, v1) && OnLine(t, w, t0, v0, t1, v1)
    ensures v == w
  {
    ProductInjective(t1 - t0, 0.0, v - v0, w - v0);
  }

  lemma {:induction false} InterpolateOnLine(local: seq<real>, beacon: seq<real>, start: nat, end: nat, i: nat)
    requires |local| == |beacon| && start < end < |local| && i < |local| && local[end] != local[start]
    ensures OnLine(local[i], Interpolate(local, beacon, start, end, i), local[start], beacon[start], local[end], beacon[end])
  {
    QuotientCancels(local[i] - local[start], local[end] - local[start], beacon[end] - beacon[start]);
  }

  // Every value of the axis lies on the straight line, over local time, between the
  // beacon values at the start and the end of its run.
  lemma {:induction false} AxisLinear(local: seq<real>, beacon: seq<real>, m: nat, i: nat)
    requires |local| == |beacon| && Axis(local, beacon).Ok? && InRun(Starts(beacon), m, i)
    ensures var s, axis := Starts(beacon), Axis(local, beacon).axis;
            && 0 <= i - s[0] < |axis| && local[s[m]] != local[s[m - 1]]
            && (axis[i - s[0]] - beacon[s[m - 1]]) * (local[s[m]] - local[s[m - 1]])
               == (local[i] - local[s[m - 1]]) * (beacon[s[m]] - beacon[s[m - 1]])
  {
    var s := Starts(beacon);
    assert MovesAt(local, s, m);
    OverAt(local, beacon, s, m, i);
    InterpolateOnLine(local, beacon, s[m - 1], s[m], i);
  }

  // The value at index i of run m lies on its line.
  predicate LinearAt(x: seq<real>, local: seq<real>, beacon: seq<real>, s: seq<nat>, m: nat, i: nat)
    requires |local| == |beacon| && Listed(s, |local|) && InRun(s, m, i)
  {
    && 0 <= i - s[0] < |x|
    && OnLine(local[i], x[i - s[0]], local[s[m - 1]], beacon[s[m - 1]], local[s[m]], beacon[s[m]])
  }

  lemma {:induction false} LinearOnce(x: seq<real>, y: seq<real>, local: seq<real>, beacon: seq<real>, s: seq<nat>, m: nat, i: nat)
    requires |local| == |beacon| && Listed(s, |local|) && InRun(s, m, i) && MovesAt(local, s, m)
    requires LinearAt(x, local, beacon, s, m, i) && LinearAt(y, local, beacon, s, m, i)
    ensures x[i - s[0]] == y[i - s[0]]
  {
    OneOnLine(local[i], x[i - s[0]], y[i - s[0]], local[s[m - 1]], beacon[s[m - 1]], local[s[m]], beacon[s[m]]);
  }

  lemma {:induction false} AxisLinearAt(local: seq<real>, beacon: seq<real>, m: nat, i: nat)
    requires |local| == |beacon| && Axis(local, beacon).Ok? && InRun(Starts(beacon), m, i)
    ensures MovesAt(local, Starts(beacon), m)
    ensures LinearAt(Axis(local, beacon).axis, local, beacon, Starts(beacon), m, i)
  {
    AxisLinear(local, beacon, m, i);
  }

  ghost predicate LinearInRuns(x: seq<real>, local: seq<real>, beacon: seq<real>, s: seq<nat>)
    requires |local| == |beacon| && Listed(s, |local|)
  {
    forall m: nat, i: nat | i < |local| && InRun(s, m, i) :: LinearAt(x, local, beacon, s, m, i)
  }

  lemma {:induction false} LinearSame(x: seq<real>, y: seq<real>, local: seq<real>, beacon: seq<real>, s: seq<nat>)
    requires |local| == |beacon| && Listed(s, |local|) && |s| >= 2 && Moving(local, s, |s| - 1)
    requires LinearInRuns(x, local, beacon, s) && LinearInRuns(y, local, beacon, s)
    requires |x| == |y| == s[|s| - 1] - s[0] + 1 && x[|x| - 1] == y[|x| - 1]
    ensures x == y
  {
    forall j | 0 <= j < |x| - 1 ensures x[j] == y[j] {
      var m := RunOf(s, |beacon|, j + s[0]);
      assert LinearAt(x, local, beacon, s, m, j + s[0]) && LinearAt(y, local, beacon, s, m, j + s[0]);
      assert MovesAt(local, s, m);
      LinearOnce(x, y, local, beacon, s, m, j + s[0]);
    }
  }

  // The axis is the only sequence of its length and last value that is linear in
  // every run.
  lemma {:induction false} AxisUnique(local: seq<real>, beacon: seq<real>, x: seq<real>)
    requires |local| == |beacon| && Axis(local, beacon).Ok? && |x| == |Axis(local, beacon).axis|
    requires |x| > 0 ==> x[|x| - 1] == Axis(local, beacon).axis[|x| - 1]
    requires LinearInRuns(x, local, beacon, Starts(beacon))
    ensures x == Axis(local, beacon).axis
  {
    var s, axis := Starts(beacon), Axis(local, beacon).axis;
    AxisKind(local, beacon);
    forall m: nat, i: nat | i < |local| && InRun(s, m, i) ensures LinearAt(axis, local, beacon, s, m, i) {
      AxisLinearAt(local, beacon, m, i);
    }
    LinearSame(x, axis, local, beacon, s);
  }

  // ---------------------------------------------------------------- monotonicity

  predicate StrictlyIncreasing(x: seq<real>) { forall i, j | 0 <= i < j < |x| :: x[i] < x[j] }

  lemma QuotientBetween(x: real, y: real)
    requires 0.0 <= x < y
    ensures 0.0 <= x / y < 1.0
  {
  }

  lemma QuotientMonotone(x: real, x': real, y: real)
    requires x < x' && 0.0 < y
    ensures x / y < x' / y
  {
  }

  lemma ProductMonotone(q: real, q': real, d: real)
    requires q < q' && 0.0 < d
    ensures q * d < q' * d
  {
  }

  // Inside a run the values rise from the start value and stay below the end value.
  lemma InterpolateBetween(local: seq<real>, beacon: seq<real>, start: nat, end: nat, i: nat)
    requires |local| == |beacon| && start <= i < end < |local|
    requires StrictlyIncreasing(local) && beacon[start] < beacon[end]
    ensures beacon[start] <= Interpolate(local, beacon, start, end, i) < beacon[end]
  {
    var x, y, d := local[i] - local[start], local[end] - local[start], beacon[end] - beacon[start];
    QuotientBetween(x, y);
    if x / y > 0.0 { ProductMonotone(0.0, x / y, d); }
    ProductMonotone(x / y, 1.0, d);
  }

  lemma InterpolateRises(local: seq<real>, beacon: seq<real>, start: nat, end: nat, i: nat)
    requires |local| == |beacon| && start <= i && i + 1 < end < |local|
    requires StrictlyIncreasing(local) && beacon[start] < beacon[end]
    ensures Interpolate(local, beacon, start, end, i) < Interpolate(local, beacon, start, end, i + 1)
  {
    var y, d := local[end] - local[start], beacon[end] - beacon[start];
    QuotientMonotone(local[i] - local[start], local[i + 1] - local[start], y);
    ProductMonotone((local[i] - local[start]) / y, (local[i + 1] - local[start]) / y, d);
  }

  // The m-th run starts higher than the one before it.
  predicate RisesAt(beacon: seq<real>, s: seq<nat>, m: nat)
    requires Listed(s, |beacon|) && 0 < m < |s|
  {
    beacon[s[m - 1]] < beacon[s[m]]
  }

  // Values of the runs' starts rise from run to run.
  predicate RunsRise(beacon: seq<real>, s: seq<nat>)
    requires Listed(s, |beacon|)
  {
    forall m | 0 < m < |s| :: RisesAt(beacon, s, m)
  }

  // Value i of the axis lies in the half-open interval of its run.
  lemma {:induction false} OverWithin(local: seq<real>, beacon: seq<real>, s: seq<nat>, m: nat, i: nat)
    requires |local| == |beacon| && Listed(s, |local|) && s != [] && Moving(local, s, |s| - 1) && InRun(s, m, i)
    requires StrictlyIncreasing(local) && RunsRise(beacon, s)
    ensures 0 <= i - s[0] < |AxisOver(local, beacon, s)|
    ensures beacon[s[m - 1]] <= AxisOver(local, beacon, s)[i - s[0]] < beacon[s[m]]
  {
    assert RisesAt(beacon, s, m);
    OverAt(local, beacon, s, m, i);
    InterpolateBetween(local, beacon, s[m - 1], s[m], i);
  }

  lemma {:induction false} OverStep(local: seq<real>, beacon: seq<real>, s: seq<nat>, p: nat)
    requires |local| == |beacon| && Listed(s, |local|) && |s| >= 2 && Moving(local, s, |s| - 1)
    requires StrictlyIncreasing(local) && RunsRise(beacon, s) && p + 1 < |AxisOver(local, beacon, s)|
    ensures AxisOver(local, beacon, s)[p] < AxisOver(local, beacon, s)[p + 1]
  {
    OverLength(local, beacon, s);
    var i := p + s[0];
    var m := RunOf(s, |beacon|, i);
    OverAt(local, beacon, s, m, i);
    assert RisesAt(beacon, s, m);
    if i + 1 < s[m] {
      OverAt(local, beacon, s, m, i + 1);
      InterpolateRises(local, beacon, s[m - 1], s[m], i);
    } else {
      InterpolateBetween(local, beacon, s[m - 1], s[m], i);
      OverStart(local, beacon, s, m);
    }
  }

  // With rising local time, rising run values and at least two runs, there is an
  // axis, every value lies in its run's half-open interval, and the axis rises.
  lemma {:induction false} AxisRises(local: seq<real>, beacon: seq<real>)
    requires |local| == |beacon| && StrictlyIncreasing(local) && RunsRise(beacon, Starts(beacon)) && |Starts(beacon)| >= 2
    ensures Axis(local, beacon).Ok?
    ensures var s, axis := Starts(beacon), Axis(local, beacon).axis;
            forall m: nat, i: nat | InRun(s, m, i) ::
              0 <= i - s[0] < |axis| && beacon[s[m - 1]] <= axis[i - s[0]] < beacon[s[m]]
    ensures StrictlyIncreasing(Axis(local, beacon).axis)
  {
    OverRises(local, beacon, Starts(beacon));
  }

  lemma {:induction false} RisingMoves(local: seq<real>, s: seq<nat>, k: nat)
    requires Listed(s, |local|) && k < |s| && StrictlyIncreasing(local)
    ensures Moving(local, s, k)
  {
  }

  lemma {:induction false} OverRises(local: seq<real>, beacon: seq<real>, s: seq<nat>)
    requires |local| == |beacon| && Listed(s, |local|) && |s| >= 2
    requires StrictlyIncreasing(local) && RunsRise(beacon, s)
    ensures Moving(local, s, |s| - 1)
    ensures var axis := AxisOver(local, beacon, s);
            && StrictlyIncreasing(axis)
            && forall m: nat, i: nat | InRun(s, m, i) ::
                 0 <= i - s[0] < |axis| && beacon[s[m - 1]] <= axis[i - s[0]] < beacon[s[m]]
  {
    RisingMoves(local, s, |s| - 1);
    var axis := AxisOver(local, beacon, s);
    forall m: nat, i: nat | InRun(s, m, i)
      ensures 0 <= i - s[0] < |axis| && beacon[s[m - 1]] <= axis[i - s[0]] < beacon[s[m]]
    {
      OverWithin(local, beacon, s, m, i);
    }
    forall p | 0 <= p < |axis| - 1 ensures axis[p] < axis[p + 1] {
      OverStep(local, beacon, s, p);
    }
    AdjacentToAll(axis);
  }

  lemma {:induction false} AdjacentToAll(x: seq<real>)
    requires forall p | 0 <= p < |x| - 1 :: x[p] < x[p + 1]
    ensures StrictlyIncreasing(x)
  {
    if x != [] {
      var y := x[..|x| - 1];
      AdjacentToAll(y);
      forall i, j | 0 <= i < j < |x| ensures x[i] < x[j] {
        if j == |x| - 1 && i < j - 1 { assert y[i] < y[j - 1]; }
      }
    }
  }

  // ------------------------------------------------------------ clock independence

  // A clock with drift a and offset c relative to another.
  function Clock(a: real, c: real): real -> real { x => a * x + c }

  function Mapped(f: real -> real, x: seq<real>): (r: seq<real>)
    ensures |r| == |x| && forall i | 0 <= i < |x| :: r[i] == f(x[i])
  {
    seq(|x|, i requires 0 <= i < |x| => f(x[i]))
  }

  ghost predicate Injective(f: real -> real) { forall x, y :: f(x) == f(y) ==> x == y }

  ghost predicate KeepsRatios(f: real -> real)
    requires Injective(f)
  {
    forall x, y, z :: y != z ==> Ratio(f(x), f(z), f(y)) == Ratio(x, z, y)
  }

  ghost predicate KeepsBlends(f: real -> real) { forall q, x, y :: Blend(q, f(x), f(y)) == f(Blend(q, x, y)) }

  lemma ProductInjective(a: real, c: real, x: real, y: real)
    requires a != 0.0 && a * x + c == a * y + c
    ensures x == y
  {
    assert a * (x - y) == 0.0;
  }

  lemma ClockInjective(a: real, c: real)
    requires a != 0.0
    ensures Injective(Clock(a, c))
  {
    forall x, y | Clock(a, c)(x) == Clock(a, c)(y) ensures x == y {
      ProductInjective(a, c, x, y);
    }
  }

  lemma ScaleQuotient(a: real, x: real, y: real)
    requires a != 0.0 && y != 0.0
    ensures a * y != 0.0 && (a * x) / (a * y) == x / y
  {
    var q := x / y;
    assert q * y == x;
    assert q * (a * y) == a * x;
  }

  lemma Distribute(a: real, x: real, y: real)
    ensures a * (x + y) == a * x + a * y && a * (x - y) == a * x - a * y
  {
  }

  lemma Exchange(q: real, a: real, d: real)
    ensures q * (a * d) == a * (q * d)
  {
  }

  lemma RatioOfClock(a: real, c: real, x: real, z: real, y: real)
    requires a != 0.0 && y != z
    ensures Clock(a, c)(y) != Clock(a, c)(z)
    ensures Ratio(Clock(a, c)(x), Clock(a, c)(z), Clock(a, c)(y)) == Ratio(x, z, y)
  {
    ScaleQuotient(a, x - z, y - z);
    Distribute(a, x, z);
    Distribute(a, y, z);
  }

  lemma BlendOfClock(a: real, c: real, q: real, x: real, y: real)
    ensures Blend(q, Clock(a, c)(x), Clock(a, c)(y)) == Clock(a, c)(Blend(q, x, y))
  {
    var d := y - x;
    Distribute(a, y, x);
    assert (a * y + c) - (a * x + c) == a * d;
    Exchange(q, a, d);
    Distribute(a, q * d, x);
  }

  lemma ClockKeepsRatios(a: real, c: real)
    requires a != 0.0
    ensures Injective(Clock(a, c)) && KeepsRatios(Clock(a, c))
  {
    ClockInjective(a, c);
    var f := Clock(a, c);
    forall x, y, z | y != z ensures Ratio(f(x), f(z), f(y)) == Ratio(x, z, y) {
      RatioOfClock(a, c, x, z, y);
    }
  }

  lemma ClockKeepsBlends(a: real, c: real)
    ensures KeepsBlends(Clock(a, c))
  {
    var f := Clock(a, c);
    forall q, x, y ensures Blend(q, f(x), f(y)) == f(Blend(q, x, y)) {
      BlendOfClock(a, c, q, x, y);
    }
  }

  lemma {:induction false} MovingMapped(local: seq<real>, s: seq<nat>, k: nat, f: real -> real)
    requires Listed(s, |local|) && k < |s| && Injective(f)
    ensures Moving(Mapped(f, local), s, k) <==> Moving(local, s, k)
  {
    forall m | 0 < m <= k ensures MovesAt(Mapped(f, local), s, m) <==> MovesAt(local, s, m) {
    }
  }

  lemma {:induction false} InterpolateLocal(local: seq<real>, beacon: seq<real>, f: real -> real, start: nat, end: nat, i: nat)
    requires |local| == |beacon| && start < end < |local| && i < |local| && local[end] != local[start]
    requires Injective(f) && KeepsRatios(f)
    ensures Mapped(f, local)[end] != Mapped(f, local)[start]
    ensures Interpolate(Mapped(f, local), beacon, start, end, i) == Interpolate(local, beacon, start, end, i)
  {
  }

  // What makes a sequence the axis of given starts.
  predicate InterpolatedAt(axis: seq<real>, local: seq<real>, beacon: seq<real>, s: seq<nat>, m: nat, i: nat)
    requires |local| == |beacon| && Listed(s, |local|) && InRun(s, m, i) && MovesAt(local, s, m)
  {
    0 <= i - s[0] < |axis| && axis[i - s[0]] == Interpolate(local, beacon, s[m - 1], s[m], i)
  }

  ghost predicate IsAxis(axis: seq<real>, local: seq<real>, beacon: seq<real>, s: seq<nat>)
    requires |local| == |beacon| && Listed(s, |local|) && |s| >= 2
  {
    && |axis| == s[|s| - 1] - s[0] + 1 && axis[|axis| - 1] == beacon[s[|s| - 1]]
    && forall m: nat, i: nat | InRun(s, m, i) :: MovesAt(local, s, m) && InterpolatedAt(axis, local, beacon, s, m, i)
  }

  lemma {:induction false} OverIsAxis(local: seq<real>, beacon: seq<real>, s: seq<nat>)
    requires |local| == |beacon| && Listed(s, |local|) && |s| >= 2 && Moving(local, s, |s| - 1)
    ensures IsAxis(AxisOver(local, beacon, s), local, beacon, s)
  {
    OverLength(local, beacon, s);
    forall m: nat, i: nat | InRun(s, m, i)
      ensures MovesAt(local, s, m) && InterpolatedAt(AxisOver(local, beacon, s), local, beacon, s, m, i)
    {
      assert MovesAt(local, s, m);
      OverAt(local, beacon, s, m, i);
    }
  }

  // The value before the last at a position of an axis.
  lemma {:induction false} AxisAt(axis: seq<real>, local: seq<real>, beacon: seq<real>, s: seq<nat>, j: nat) returns (m: nat)
    requires |local| == |beacon| && Listed(s, |local|) && |s| >= 2 && IsAxis(axis, local, beacon, s) && j < |axis| - 1
    ensures InRun(s, m, j + s[0]) && MovesAt(local, s, m)
    ensures axis[j] == Interpolate(local, beacon, s[m - 1], s[m], j + s[0])
  {
    m := RunOf(s, |local|, j + s[0]);
    assert InterpolatedAt(axis, local, beacon, s, m, j + s[0]);
  }

  lemma {:induction false} SameOnLocalClock(x: seq<real>, y: seq<real>, local: seq<real>, beacon: seq<real>, s: seq<nat>, f: real -> real)
    requires |local| == |beacon| && Listed(s, |local|) && |s| >= 2 && Injective(f) && KeepsRatios(f)
    requires IsAxis(x, local, beacon, s) && IsAxis(y, Mapped(f, local), beacon, s)
    ensures x == y
  {
    forall j | 0 <= j < |x| ensures x[j] == y[j] {
      if j < |x| - 1 {
        var m := AxisAt(x, local, beacon, s, j);
        assert InterpolatedAt(y, Mapped(f, local), beacon, s, m, j + s[0]);
        InterpolateLocal(local, beacon, f, s[m - 1], s[m], j + s[0]);
      }
    }
  }

  lemma {:induction false} MappedOnBeaconClock(x: seq<real>, y: seq<real>, local: seq<real>, beacon: seq<real>, s: seq<nat>, f: real -> real)
    requires |local| == |beacon| && Listed(s, |local|) && |s| >= 2 && KeepsBlends(f)
    requires IsAxis(x, local, beacon, s) && IsAxis(y, local, Mapped(f, beacon), s)
    ensures y == Mapped(f, x)
  {
    forall j | 0 <= j < |x| ensures y[j] == f(x[j]) {
      if j < |x| - 1 {
        var m := AxisAt(x, local, beacon, s, j);
        assert InterpolatedAt(y, local, Mapped(f, beacon), s, m, j + s[0]);
        InterpolateBeacon(local, beacon, f, s[m - 1], s[m], j + s[0]);
      }
    }
  }

  lemma {:induction false} OverLocal(local: seq<real>, beacon: seq<real>, s: seq<nat>, f: real -> real)
    requires |local| == |beacon| && Listed(s, |local|) && |s| >= 2 && Moving(local, s, |s| - 1)
    requires Injective(f) && KeepsRatios(f)
    ensures Moving(Mapped(f, local), s, |s| - 1)
    ensures AxisOver(Mapped(f, local), beacon, s) == AxisOver(local, beacon, s)
  {
    MovingMapped(local, s, |s| - 1, f);
    OverIsAxis(local, beacon, s);
    OverIsAxis(Mapped(f, local), beacon, s);
    SameOnLocalClock(AxisOver(local, beacon, s), AxisOver(Mapped(f, local), beacon, s), local, beacon, s, f);
  }

  // Offset and drift of the local clock do not matter.
  lemma {:induction false} LocalClockIndependence(local: seq<real>, beacon: seq<real>, a: real, c: real)
    requires |local| == |beacon| && a != 0.0
    ensures Axis(Mapped(Clock(a, c), local), beacon) == Axis(local, beacon)
  {
    ClockKeepsRatios(a, c);
    LocalIndependence(local, beacon, Clock(a, c));
  }

  lemma {:induction false} LocalIndependence(local: seq<real>, beacon: seq<real>, f: real -> real)
    requires |local| == |beacon| && Injective(f) && KeepsRatios(f)
    ensures Axis(Mapped(f, local), beacon) == Axis(local, beacon)
  {
    var s := Starts(beacon);
    if |s| >= 2 {
      MovingMapped(local, s, |s| - 1, f);
      if Moving(local, s, |s| - 1) { OverLocal(local, beacon, s, f); }
    }
  }

  // The marker means the same before and after a change of the beacon's clock.
  ghost predicate MarkerKept(beacon: seq<real>, f: real -> real) {
    beacon == [] || (beacon[0] == MARKER <==> f(beacon[0]) == MARKER)
  }

  lemma {:induction false} MappedPrefix(f: real -> real, x: seq<real>)
    requires x != []
    ensures Mapped(f, x)[..|x| - 1] == Mapped(f, x[..|x| - 1])
  {
  }

  lemma {:induction false} StartsMapped(beacon: seq<real>, f: real -> real)
    requires Injective(f) && MarkerKept(beacon, f)
    ensures Starts(Mapped(f, beacon)) == Starts(beacon)
    decreases |beacon|
  {
    if beacon != [] {
      var n := |beacon| - 1;
      StartsMapped(beacon[..n], f);
      MappedPrefix(f, beacon);
      assert IsStart(Mapped(f, beacon), n) <==> IsStart(beacon, n);
    }
  }

  // A change of the beacon's clock leaves the runs where they are if and only if it
  // keeps the marker.
  lemma {:induction false} RunsKeptIff(beacon: seq<real>, a: real, c: real)
    requires a != 0.0
    ensures Starts(Mapped(Clock(a, c), beacon)) == Starts(beacon) <==> MarkerKept(beacon, Clock(a, c))
  {
    var f := Clock(a, c);
    ClockInjective(a, c);
    if MarkerKept(beacon, f) {
      StartsMapped(beacon, f);
    } else {
      var beacon' := Mapped(f, beacon);
      assert IsStart(beacon', 0) <==> !IsStart(beacon, 0);
      if IsStart(beacon, 0) { StartsComplete(beacon, 0); } else { StartsComplete(beacon', 0); }
    }
  }

  lemma {:induction false} InterpolateBeacon(local: seq<real>, beacon: seq<real>, f: real -> real, start: nat, end: nat, i: nat)
    requires |local| == |beacon| && start < end < |local| && i < |local| && local[end] != local[start] && KeepsBlends(f)
    ensures Interpolate(local, Mapped(f, beacon), start, end, i) == f(Interpolate(local, beacon, start, end, i))
  {
  }

  function MapResult(f: real -> real, r: Result): Result { if r.Ok? then Ok(Mapped(f, r.axis)) else r }

  lemma {:induction false} BeaconEquivariance(local: seq<real>, beacon: seq<real>, f: real -> real)
    requires |local| == |beacon| && Injective(f) && KeepsBlends(f) && MarkerKept(beacon, f)
    ensures Axis(local, Mapped(f, beacon)) == MapResult(f, Axis(local, beacon))
  {
    var s := Starts(beacon);
    StartsMapped(beacon, f);
    if |s| >= 2 && Moving(local, s, |s| - 1) { OverBeacon(local, beacon, s, f); }
  }

  lemma {:induction false} OverBeacon(local: seq<real>, beacon: seq<real>, s: seq<nat>, f: real -> real)
    requires |local| == |beacon| && Listed(s, |local|) && |s| >= 2 && Moving(local, s, |s| - 1) && KeepsBlends(f)
    ensures AxisOver(local, Mapped(f, beacon), s) == Mapped(f, AxisOver(local, beacon, s))
  {
    OverIsAxis(local, beacon, s);
    OverIsAxis(local, Mapped(f, beacon), s);
    MappedOnBeaconClock(AxisOver(local, beacon, s), AxisOver(local, Mapped(f, beacon), s), local, beacon, s, f);
  }

  // The starts after a change of value, without the one at the very beginning.
  function Changes(s: seq<nat>): seq<nat> { if s != [] && s[0] == 0 then s[1..] else s }

  lemma {:induction false} ChangesListed(s: seq<nat>, n: nat)
    requires Listed(s, n)
    ensures Listed(Changes(s), n) && 0 !in Changes(s)
  {
  }

  // A change of the beacon's clock touches at most the first start.
  lemma {:induction false} ChangesMapped(beacon: seq<real>, f: real -> real)
    requires Injective(f)
    ensures Changes(Starts(Mapped(f, beacon))) == Changes(Starts(beacon))
    decreases |beacon|
  {
    if |beacon| == 1 {
      FirstStart(beacon);
      FirstStart(Mapped(f, beacon));
    } else if beacon != [] {
      var n := |beacon| - 1;
      ChangesMapped(beacon[..n], f);
      MappedPrefix(f, beacon);
      assert IsStart(Mapped(f, beacon), n) <==> IsStart(beacon, n);
      ChangesStep(beacon);
      ChangesStep(Mapped(f, beacon));
    }
  }

  lemma {:induction false} ChangesStep(beacon: seq<real>)
    requires |beacon| > 1
    ensures var n := |beacon| - 1;
            Changes(Starts(beacon)) == Changes(Starts(beacon[..n])) + if IsStart(beacon, n) then [n] else []
  {
    var n := |beacon| - 1;
    var s := Starts(beacon[..n]);
    if IsStart(beacon, n) && s != [] && s[0] == 0 { assert (s + [n])[1..] == s[1..] + [n]; }
  }

  lemma {:induction false} FirstStart(beacon: seq<real>)
    requires |beacon| == 1
    ensures Changes(Starts(beacon)) == []
  {
    assert beacon[..0] == [];
    assert Starts(beacon) == [] || Starts(beacon) == [0];
  }

  // The list starts with 0 if and only if the first value is not the marker.
  lemma {:induction false} StartsAtZero(beacon: seq<real>)
    requires beacon != []
    ensures beacon[0] != MARKER <==> Starts(beacon) == [0] + Changes(Starts(beacon))
    ensures beacon[0] == MARKER <==> Starts(beacon) == Changes(Starts(beacon))
  {
    var s := Starts(beacon);
    ChangesListed(s, |beacon|);
    if IsStart(beacon, 0) {
      StartsComplete(beacon, 0);
      assert s[0] == 0;
    }
  }

  // Local time stands still over one of these runs.
  predicate Standing(local: seq<real>, s: seq<nat>)
    requires Listed(s, |local|)
  {
    |s| >= 2 && !Moving(local, s, |s| - 1)
  }

  // The outcome for two lists of starts of which one has a leading 0 more.
  lemma {:induction false} LeadingZeroMatters(local: seq<real>, s: seq<nat>)
    requires Listed([0] + s, |local|) && Listed(s, |local|) && |s| >= 2
    ensures Standing(local, s) ==> Standing(local, [0] + s)
  {
    var z := [0] + s;
    if Standing(local, s) {
      var m :| 0 < m <= |s| - 1 && !MovesAt(local, s, m);
      assert z[m + 1] == s[m] && z[m] == s[m - 1];
      assert !MovesAt(local, z, m + 1);
    }
  }

  // The kind of a result, and the length of an axis, follow from the starts.
  predicate OfKind(local: seq<real>, s: seq<nat>, r: Result)
    requires Listed(s, |local|)
  {
    && (r.UnboundLocalError? <==> |s| < 2)
    && (r.ZeroDivisionError? <==> Standing(local, s))
    && (r.Ok? ==> |s| >= 2 && |r.axis| == s[|s| - 1] - s[0] + 1)
  }

  lemma {:induction false} AxisKind(local: seq<real>, beacon: seq<real>)
    requires |local| == |beacon|
    ensures OfKind(local, Starts(beacon), Axis(local, beacon))
  {
    if Axis(local, beacon).Ok? { AxisShape(local, beacon); }
  }

  // The results of two lists of starts of which one has a leading 0 more.
  lemma {:induction false} KindsAlikeIff(local: seq<real>, t: seq<nat>, x: Result, y: Result)
    requires Listed(t, |local|) && Listed([0] + t, |local|) && (t != [] ==> t[0] > 0)
    requires OfKind(local, [0] + t, x) && OfKind(local, t, y)
    ensures SameKind(x, y) <==> t == [] || Standing(local, t)
  {
    if |t| >= 2 {
      LeadingZeroMatters(local, t);
      assert ([0] + t)[|t|] == t[|t| - 1];
    }
  }

  // As far as a mapping of values can make one of the other.
  predicate SameKind(x: Result, y: Result) {
    match x
    case Ok(axis) => y.Ok? && |axis| == |y.axis|
    case _ => x == y
  }

  // A leading start that is there for one beacon and not for the other.
  lemma {:induction false} MarkerDecides(local: seq<real>, with: seq<real>, without: seq<real>)
    requires |local| == |with| == |without| && with != []
    requires Changes(Starts(with)) == Changes(Starts(without)) && with[0] != MARKER && without[0] == MARKER
    ensures Listed(Changes(Starts(with)), |local|)
    ensures SameKind(Axis(local, with), Axis(local, without))
            <==> Changes(Starts(with)) == [] || Standing(local, Changes(Starts(with)))
  {
    var t := Changes(Starts(with));
    StartsAtZero(with);
    StartsAtZero(without);
    ChangesListed(Starts(with), |local|);
    AxisKind(local, with);
    AxisKind(local, without);
    if t != [] { assert t[0] in t; }
    KindsAlikeIff(local, t, Axis(local, with), Axis(local, without));
  }

  // Results of the same kind that are no axis are mapped to each other.
  lemma {:induction false} NotMappedIff(x: Result, y: Result, f: real -> real)
    ensures x == MapResult(f, y) ==> SameKind(x, y) && SameKind(y, x)
    ensures SameKind(x, y) <==> SameKind(y, x)
    ensures SameKind(x, y) && !x.Ok? ==> x == MapResult(f, y)
  {
  }

  // Changing the beacon's clock changes the axis alike if and only if the marker
  // keeps its meaning for the first value, or the value never changes, or the call
  // divides by zero with the first run and without it.
  lemma {:induction false} BeaconClockEquivarianceIff(local: seq<real>, beacon: seq<real>, a: real, c: real)
    requires |local| == |beacon| && a != 0.0
    ensures Listed(Changes(Starts(beacon)), |local|)
    ensures Axis(local, Mapped(Clock(a, c), beacon)) == MapResult(Clock(a, c), Axis(local, beacon))
            <==> || MarkerKept(beacon, Clock(a, c))
                 || Changes(Starts(beacon)) == []
                 || Standing(local, Changes(Starts(beacon)))
  {
    var f := Clock(a, c);
    ClockInjective(a, c);
    ClockKeepsBlends(a, c);
    ChangesListed(Starts(beacon), |beacon|);
    if MarkerKept(beacon, f) {
      BeaconEquivariance(local, beacon, f);
    } else {
      MarkerLost(local, beacon, f);
    }
  }

  lemma {:induction false} MarkerLost(local: seq<real>, beacon: seq<real>, f: real -> real)
    requires |local| == |beacon| && Injective(f) && !MarkerKept(beacon, f)
    ensures Listed(Changes(Starts(beacon)), |local|)
    ensures Axis(local, Mapped(f, beacon)) == MapResult(f, Axis(local, beacon))
            <==> Changes(Starts(beacon)) == [] || Standing(local, Changes(Starts(beacon)))
  {
    var beacon' := Mapped(f, beacon);
    ChangesMapped(beacon, f);
    if beacon[0] == MARKER {
      MarkerDecides(local, beacon', beacon);
    } else {
      MarkerDecides(local, beacon, beacon');
    }
    NotMappedIff(Axis(local, beacon'), Axis(local, beacon), f);
    StandingFails(local, beacon);
  }

  // Where the values never change, or local time stands still between two changes,
  // there is no axis, with the marker or without.
  lemma {:induction false} StandingFails(local: seq<real>, beacon: seq<real>)
    requires |local| == |beacon| && beacon != []
    ensures Listed(Changes(Starts(beacon)), |local|)
    ensures Changes(Starts(beacon)) == [] || Standing(local, Changes(Starts(beacon))) ==> !Axis(local, beacon).Ok?
  {
    var t := Changes(Starts(beacon));
    ChangesListed(Starts(beacon), |local|);
    AxisKind(local, beacon);
    StartsAtZero(beacon);
    if |t| >= 2 && Starts(beacon) == [0] + t { LeadingZeroMatters(local, t); }
  }

  // Where there is an axis, it is on the beacon's clock if and only if the marker
  // keeps its meaning.
  lemma {:induction false} BeaconClockEquivariance(local: seq<real>, beacon: seq<real>, a: real, c: real)
    requires |local| == |beacon| && a != 0.0 && Axis(local, beacon).Ok?
    ensures Axis(local, Mapped(Clock(a, c), beacon)) == MapResult(Clock(a, c), Axis(local, beacon))
            <==> MarkerKept(beacon, Clock(a, c))
  {
    BeaconClockEquivarianceIff(local, beacon, a, c);
    if beacon != [] { StandingFails(local, beacon); }
  }

  // Without that condition it can fail: beacons 0, 1 moved down by one lose their
  // first run to the marker.
  lemma {:induction false} MarkerExample(local: seq<real>, beacon: seq<real>)
    requires local == [0.0, 1.0] && beacon == [0.0, 1.0]
    ensures Axis(local, beacon).Ok? && Axis(local, Mapped(Clock(1.0, -1.0), beacon)) == UnboundLocalError
  {
    MovedDown(beacon);
    TwoReadings(local, beacon);
    TwoReadings(local, Mapped(Clock(1.0, -1.0), beacon));
  }

  lemma {:induction false} TwoReadings(local: seq<real>, beacon: seq<real>)
    requires |local| == |beacon| == 2 && beacon[1] != beacon[0] && local[1] != local[0]
    ensures if beacon[0] == MARKER then Axis(local, beacon) == UnboundLocalError else Axis(local, beacon).Ok?
  {
    TwoStarts(beacon);
    AxisKind(local, beacon);
    if beacon[0] != MARKER { assert MovesAt(local, Starts(beacon), 1) && Moving(local, Starts(beacon), 1); }
  }

  lemma {:induction false} MovedDown(beacon: seq<real>)
    requires beacon == [0.0, 1.0]
    ensures Mapped(Clock(1.0, -1.0), beacon) == [-1.0, 0.0]
  {
  }

  lemma {:induction false} TwoStarts(beacon: seq<real>)
    requires |beacon| == 2 && beacon[1] != beacon[0]
    ensures Starts(beacon) == if beacon[0] == MARKER then [1] else [0, 1]
  {
    var one := beacon[..1];
    assert one[..0] == [];
    assert Starts(one) == if beacon[0] == MARKER then [] else [0];
  }

  // --------------------------------------------------------------- back-projection

  // Readings of one board: local time and value.
  type Series = seq<(int, int)>

  // x has the times of the first n readings, moved so that the last one gets the
  // reference time.
  predicate Projected(x: seq<int>, arr: Series, n: nat, timestamp: int)
    requires n <= |arr|
  {
    if n == 0 then x == [timestamp]
    else |x| == n && forall i | 0 <= i < n :: x[i] == timestamp - (arr[n - 1].0 - arr[i].0)
  }

  predicate ValuesOf(y: seq<int>, arr: Series, n: nat)
    requires n <= |arr|
  {
    |y| == n && forall i | 0 <= i < n :: y[i] == arr[i].1
  }

  datatype Points = Points(x1: seq<int>, y1: seq<int>, x2: seq<int>, y2: seq<int>) | IndexError

  // The loops of parser: both series are walked by the length of the first, the times
  // newest first and then reversed.
  method BackProject(arr1: Series, arr2: Series, timestamp: int) returns (r: Points)
    ensures r.IndexError? <==> |arr2| < |arr1|
    ensures r.Points? ==>
              && Projected(r.x1, arr1, |arr1|, timestamp) && ValuesOf(r.y1, arr1, |arr1|)
              && Projected(r.x2, arr2, |arr1|, timestamp) && ValuesOf(r.y2, arr2, |arr1|)
  {
    var n := |arr1|;
    var ok, x1, x2 := WalkBack(arr1, arr2, timestamp);
    if !ok { return IndexError; }
    var y1: seq<int>, y2: seq<int> := [], [];
    var j := 0;
    while j < n
      invariant 0 <= j <= n && j <= |arr2|
      invariant ValuesOf(y1, arr1, j) && ValuesOf(y2, arr2, j)
    {
      if j >= |arr2| { return IndexError; }
      y1 := y1 + [arr1[j].1];
      y2 := y2 + [arr2[j].1];
      j := j + 1;
    }
    r := Points(Reversed(x1), y1, Reversed(x2), y2);
  }

  // The times of the last k of n readings, newest first.
  predicate NewestFirst(x: seq<int>, arr: Series, n: nat, k: nat, timestamp: int)
    requires n <= |arr| && k <= n
  {
    |x| == k && forall j | 0 <= j < k :: x[j] == timestamp - (arr[n - 1].0 - arr[n - 1 - j].0)
  }

  // Not ok stands for the IndexError of the first turn.
  method WalkBack(arr1: Series, arr2: Series, timestamp: int) returns (ok: bool, x1: seq<int>, x2: seq<int>)
    ensures ok <==> |arr1| < 2 || |arr2| >= |arr1|
    ensures ok && |arr1| == 0 ==> x1 == x2 == [timestamp]
    ensures ok && |arr1| == 1 ==> x1 == x2 == [timestamp]
    ensures ok && |arr1| >= 2 ==>
              && NewestFirst(x1, arr1, |arr1|, |arr1|, timestamp)
              && NewestFirst(x2, arr2, |arr1|, |arr1|, timestamp)
  {
    var n := |arr1|;
    x1, x2 := [timestamp], [timestamp];
    var i := n - 1;
    while i > 0
      invariant n < 2 ==> i == n - 1 && x1 == x2 == [timestamp]
      invariant n >= 2 ==> 0 <= i < n && (i < n - 1 ==> |arr2| >= n)
      invariant n >= 2 ==> NewestFirst(x1, arr1, n, n - i, timestamp)
      invariant n >= 2 && |arr2| >= n ==> NewestFirst(x2, arr2, n, n - i, timestamp)
      invariant |x1| > 0 && |x2| > 0
    {
      if i >= |arr2| { return false, x1, x2; }
      x1 := x1 + [x1[|x1| - 1] - (arr1[i].0 - arr1[i - 1].0)];
      x2 := x2 + [x2[|x2| - 1] - (arr2[i].0 - arr2[i - 1].0)];
      i := i - 1;
    }
    ok := true;
  }
}
