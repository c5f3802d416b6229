// When a board sends its log: the deadline arithmetic of test_time_beac_sync.
module SendSchedule {
  import opened Text
  import opened BeaconLog

  const SEND_INTERVAL: nat := 30000

  // The interval a reading falls in; beacon time is in microseconds.
  function Interval(r: Reading): nat { r.beacon / 1000 / SEND_INTERVAL }

  // The deadline after k sends when the first reading was `first`.
  function Deadline(first: Reading, k: nat): nat { SEND_INTERVAL * (Interval(first) + 1 + k) }

  // How many sends have happened after the readings.
  function Sends(rs: seq<Reading>): nat {
    if rs == [] then 0
    else
      var k := Sends(rs[..|rs| - 1]);
      if rs[|rs| - 1].beacon / 1000 >= Deadline(rs[0], k) then k + 1 else k
  }

  lemma {:induction false} DueIff(first: Reading, k: nat, r: Reading)
    ensures r.beacon / 1000 >= Deadline(first, k) <==> Interval(r) >= Interval(first) + 1 + k
  {
  }

  // The first deadline is the least multiple of thirty seconds after the first
  // reading, and each further one comes thirty seconds later.  Readings are in
  // microseconds, deadlines in milliseconds.
  lemma {:induction false} DeadlineMeans(first: Reading, k: nat)
    ensures Deadline(first, k) % 30000 == 0
    ensures Deadline(first, 0) - 30000 <= first.beacon / 1000 < Deadline(first, 0)
    ensures Deadline(first, k) == Deadline(first, 0) + 30000 * k
  {
  }

  // The first reading never triggers a send, whatever its time.
  lemma FirstReadingNotSent(r: Reading)
    ensures Sends([r]) == 0
  {
    assert [r][..0] == [];
    DueIff(r, 0, r);
  }

  // For any times at all: every send was due, so no deadline passes beyond one
  // interval after the largest time and none wraps around in 32 bits.
  lemma {:induction false} DeadlineBounded(rs: seq<Reading>)
    requires rs != []
    ensures Deadline(rs[0], Sends(rs)) <= (TWO32 - 1) / 1000 + SEND_INTERVAL
  {
    var before := rs[..|rs| - 1];
    if before == [] {
      assert rs == [rs[0]];
      FirstReadingNotSent(rs[0]);
    } else {
      DeadlineBounded(before);
    }
  }

  predicate Nondecreasing(rs: seq<Reading>) {
    forall i, j | 0 <= i < j < |rs| :: rs[i].beacon <= rs[j].beacon
  }

  lemma {:induction false} IntervalMonotone(a: Reading, b: Reading)
    requires a.beacon <= b.beacon
    ensures Interval(a) <= Interval(b)
  {
    assert a.beacon / 1000 <= b.beacon / 1000;
  }

  // There are never more sends than interval boundaries crossed.
  lemma {:induction false} SendsAtMostBoundaries(rs: seq<Reading>)
    requires rs != [] && Nondecreasing(rs)
    ensures Sends(rs) <= Interval(rs[|rs| - 1]) - Interval(rs[0])
  {
    var before := rs[..|rs| - 1];
    if before == [] {
      assert rs == [rs[0]];
      FirstReadingNotSent(rs[0]);
    } else {
      SendsAtMostBoundaries(before);
      IntervalMonotone(before[|before| - 1], rs[|rs| - 1]);
      DueIff(rs[0], Sends(before), rs[|rs| - 1]);
    }
  }

  // A board is on schedule when every boundary crossed so far has been answered.
  predicate OnSchedule(rs: seq<Reading>)
    requires rs != []
  {
    Sends(rs) == Interval(rs[|rs| - 1]) - Interval(rs[0])
  }

  predicate AlwaysOnSchedule(rs: seq<Reading>) {
    forall n | 0 < n <= |rs| :: OnSchedule(rs[..n])
  }

  // No reading skips a whole interval.
  predicate NoIntervalSkipped(rs: seq<Reading>) {
    forall i | 0 < i < |rs| :: Interval(rs[i]) <= Interval(rs[i - 1]) + 1
  }

  lemma {:induction false} OnScheduleStep(rs: seq<Reading>)
    requires |rs| > 1 && Nondecreasing(rs) && OnSchedule(rs[..|rs| - 1])
    ensures OnSchedule(rs) <==> Interval(rs[|rs| - 1]) <= Interval(rs[|rs| - 2]) + 1
  {
    var before := rs[..|rs| - 1];
    assert before[|before| - 1] == rs[|rs| - 2];
    IntervalMonotone(rs[|rs| - 2], rs[|rs| - 1]);
    DueIff(rs[0], Sends(before), rs[|rs| - 1]);
  }

  lemma {:induction false} AlwaysOnPrefix(rs: seq<Reading>)
    requires |rs| > 1
    ensures AlwaysOnSchedule(rs) <==> AlwaysOnSchedule(rs[..|rs| - 1]) && OnSchedule(rs)
  {
    var before := rs[..|rs| - 1];
    assert rs[..|rs|] == rs;
    assert forall n | 0 < n <= |before| :: before[..n] == rs[..n];
  }

  lemma {:induction false} NoSkipPrefix(rs: seq<Reading>)
    requires |rs| > 1
    ensures NoIntervalSkipped(rs)
            <==> NoIntervalSkipped(rs[..|rs| - 1]) && Interval(rs[|rs| - 1]) <= Interval(rs[|rs| - 2]) + 1
  {
    var before := rs[..|rs| - 1];
    assert forall i | 0 <= i < |before| :: before[i] == rs[i];
  }

  // Over a whole run of nondecreasing times, a board answers every boundary at
  // every step if and only if no reading skips a whole interval.
  lemma {:induction false} AlwaysOnScheduleIff(rs: seq<Reading>)
    requires Nondecreasing(rs)
    ensures AlwaysOnSchedule(rs) <==> NoIntervalSkipped(rs)
  {
    if |rs| == 1 {
      assert rs == [rs[0]] && rs[..1] == rs;
      FirstReadingNotSent(rs[0]);
    } else if |rs| > 1 {
      var before := rs[..|rs| - 1];
      AlwaysOnScheduleIff(before);
      AlwaysOnPrefix(rs);
      NoSkipPrefix(rs);
      if AlwaysOnSchedule(before) {
        assert before[..|before|] == before;
        OnScheduleStep(rs);
      }
    }
  }

  // Readings at most one interval apart skip none.
  lemma CloseReadingsSkipNothing(rs: seq<Reading>)
    requires forall i | 0 < i < |rs| :: rs[i].beacon / 1000 <= rs[i - 1].beacon / 1000 + SEND_INTERVAL
    ensures NoIntervalSkipped(rs)
  {
    forall i | 0 < i < |rs| ensures Interval(rs[i]) <= Interval(rs[i - 1]) + 1 {
      var a, b := rs[i - 1].beacon / 1000, rs[i].beacon / 1000;
      assert b / SEND_INTERVAL <= (a + SEND_INTERVAL) / SEND_INTERVAL == a / SEND_INTERVAL + 1;
    }
  }
}
