// Exactly when a command round ends: what a lost increment does, why an open round
// comes to rest, and what decides its outcome.
module CommandRoundOutcome {
  import opened Options
  import opened CommandRound
  import opened CommandRoundSafety
  import opened CommandRoundProgress

  // The coordinator keeps polling: only workers move.
  predicate WorkersOnly(run: seq<Action>) {
    forall k | 0 <= k < |run| :: run[k].Work? || run[k].Raise?
  }

  // ------------------------------------------------------------ a lost increment

  // No value now in the count or about to be written reaches the number of
  // completed increments.
  predicate AllStale(s: State) {
    && s.count < Completed(s)
    && forall i | 0 <= i < |s.workers| && s.workers[i].pc.IncWrite? :: s.workers[i].read < Completed(s)
  }

  // Some worker is about to write a value that is too low.
  predicate StaleWriter(s: State, i: nat) {
    i < |s.workers| && s.workers[i].pc.IncWrite? && s.workers[i].read < Completed(s)
  }

  predicate TwoWriters(s: State, i: nat, j: nat) {
    i < |s.workers| && j < |s.workers| && i != j && s.workers[i].pc.IncWrite? && s.workers[j].pc.IncWrite?
  }

  // An increment of the open round is lost, or is bound to be.
  ghost predicate Lossy(s: State) {
    s.ctl.cpc.Collect? && (AllStale(s) || (exists i :: StaleWriter(s, i)) || (exists i, j :: TwoWriters(s, i, j)))
  }

  lemma {:induction false} RaiseEffect(s: State, i: nat)
    requires Inv(s) && s.ctl.cpc.Collect? && Fire(s, Raise(i)).Some?
    ensures var t := Fire(s, Raise(i)).value;
            Completed(t) == Completed(s) && t.count == s.count
  {
    IncrementsUpdate(s.workers, i, s.workers[i].(pc := Raised), |s.ctl.past| + 1);
  }

  lemma {:induction false} AllStaleStays(s: State, i: nat)
    requires Inv(s) && s.ctl.cpc.Collect? && Fire(s, Work(i)).Some? && AllStale(s)
    ensures AllStale(Fire(s, Work(i)).value)
  {
    WorkEffect(s, i);
  }

  lemma {:induction false} StaleWriterStays(s: State, i: nat, k: nat)
    requires Inv(s) && s.ctl.cpc.Collect? && Fire(s, Work(i)).Some? && StaleWriter(s, k)
    ensures AllStale(Fire(s, Work(i)).value) || StaleWriter(Fire(s, Work(i)).value, k)
  {
    WorkEffect(s, i);
  }

  lemma {:induction false} TwoWritersStay(s: State, i: nat, j: nat, k: nat)
    requires Inv(s) && s.ctl.cpc.Collect? && Fire(s, Work(i)).Some? && TwoWriters(s, j, k)
    ensures var t := Fire(s, Work(i)).value;
            TwoWriters(t, j, k) || StaleWriter(t, j) || StaleWriter(t, k)
  {
    WorkEffect(s, i);
  }

  lemma {:induction false} LossyWork(s: State, i: nat)
    requires Inv(s) && Lossy(s) && Fire(s, Work(i)).Some?
    ensures Lossy(Fire(s, Work(i)).value)
  {
    if AllStale(s) {
      AllStaleStays(s, i);
    } else if k :| StaleWriter(s, k) {
      StaleWriterStays(s, i, k);
    } else {
      var j, k :| TwoWriters(s, j, k);
      TwoWritersStay(s, i, j, k);
    }
  }

  lemma {:induction false} LossyRaise(s: State, i: nat)
    requires Inv(s) && Lossy(s) && Fire(s, Raise(i)).Some?
    ensures Lossy(Fire(s, Raise(i)).value)
  {
    RaiseEffect(s, i);
    var t := Fire(s, Raise(i)).value;
    if AllStale(s) {
      assert AllStale(t);
    } else if k :| StaleWriter(s, k) {
      assert StaleWriter(t, k);
    } else {
      var j, k :| TwoWriters(s, j, k);
      assert TwoWriters(t, j, k);
    }
  }

  // The coordinator cannot leave a round with a lost increment.
  lemma {:induction false} LossyBlocks(s: State)
    requires Inv(s) && Lossy(s)
    ensures CoordStep(s).None?
  {
    IncrementsBound(s.workers, |s.ctl.past| + 1);
    if s.count == |s.workers| {
      assert forall i | 0 <= i < |s.workers| :: Incremented(s.workers[i], |s.ctl.past| + 1);
      assert false;
    }
  }

  lemma {:induction false} LossyStep(s: State, a: Action)
    requires Inv(s) && Lossy(s) && Fire(s, a).Some?
    ensures Lossy(Fire(s, a).value) && Fire(s, a).value.ctl == s.ctl
  {
    match a
    case Issue(_) =>
    case Coord => LossyBlocks(s);
    case Work(i) => LossyWork(s, i);
    case Raise(i) => LossyRaise(s, i);
  }

  // The round is never left again, whatever happens.
  lemma {:induction false} LossyForever(s: State, run: seq<Action>)
    requires Inv(s) && Lossy(s) && Exec(s, run).Some?
    ensures Lossy(Exec(s, run).value) && Exec(s, run).value.ctl == s.ctl
    decreases |run|
  {
    if run != [] {
      LossyStep(s, run[0]);
      FireKeepsInv(s, run[0]);
      LossyForever(Fire(s, run[0]).value, run[1..]);
    }
  }

  // Two overlapping increments always lose one: if a worker reads the count while
  // another is about to write it, no continuation leaves the round.
  lemma {:induction false} OverlapHangs(s: State, i: nat, run: seq<Action>)
    requires Inv(s) && s.ctl.cpc.Collect? && Fire(s, Work(i)).Some? && !NoOverlap(s, Work(i))
    requires Exec(Fire(s, Work(i)).value, run).Some?
    ensures Exec(Fire(s, Work(i)).value, run).value.ctl == s.ctl
    ensures Lossy(Exec(Fire(s, Work(i)).value, run).value)
  {
    var j :| 0 <= j < |s.workers| && s.workers[j].pc.IncWrite?;
    assert TwoWriters(Fire(s, Work(i)).value, i, j);
    FireKeepsInv(s, Work(i));
    LossyForever(Fire(s, Work(i)).value, run);
  }

  lemma {:induction false} OverlapInRun(s: State, run: seq<Action>)
    requires Inv(s) && s.ctl.cpc.Collect? && WorkersOnly(run) && Exec(s, run).Some? && !NoOverlapRun(s, run)
    ensures Lossy(Exec(s, run).value)
    decreases |run|
  {
    var t := Fire(s, run[0]).value;
    if NoOverlap(s, run[0]) {
      FireKeepsInv(s, run[0]);
      OverlapInRun(t, run[1..]);
    } else {
      OverlapHangs(s, run[0].i, run[1..]);
    }
  }

  // ------------------------------------------------------ an open round comes to rest

  // An upper bound on the steps a worker can still take in an open round.
  function RoundRank(w: Worker): nat {
    match w.pc
    case OuterCheck => 12
    case Accept => 11
    case InnerCheck => 10
    case EndWoken => 11
    case StartCall => 9
    case StartWoken => 9
    case ExitCheck => 8
    case ReadMode => 7
    case Send => 6
    case Receive => 5
    case IncRead => 4
    case IncWrite => 3
    case EndCall => 2
    case _ => 0
  }

  function RoundRanks(ws: seq<Worker>): nat {
    if ws == [] then 0 else RoundRank(ws[0]) + RoundRanks(ws[1..])
  }

  lemma {:induction false} RanksUpdate(ws: seq<Worker>, i: nat, w: Worker)
    requires i < |ws|
    ensures RoundRanks(ws[i := w]) == RoundRanks(ws) - RoundRank(ws[i]) + RoundRank(w)
  {
    if i == 0 {
      assert ws[0 := w][1..] == ws[1..];
    } else {
      assert ws[i := w][1..] == ws[1..][i - 1 := w];
      RanksUpdate(ws[1..], i - 1, w);
    }
  }

  lemma {:induction false} RanksBound(ws: seq<Worker>)
    ensures RoundRanks(ws) <= 12 * |ws|
  {
    if ws != [] { RanksBound(ws[1..]); }
  }

  lemma {:induction false} WorkerRankFalls(c: Control, count: nat, w: Worker)
    requires ControlOk(c) && c.cpc.Collect? && WorkerOk(c, w) && WorkerStep(c, count, w).Some?
    ensures RoundRank(WorkerStep(c, count, w).value) < RoundRank(w)
  {
  }

  lemma {:induction false} RankFalls(s: State, a: Action)
    requires Inv(s) && s.ctl.cpc.Collect? && (a.Work? || a.Raise?) && Fire(s, a).Some?
    ensures var t := Fire(s, a).value; t.ctl == s.ctl && RoundRanks(t.workers) < RoundRanks(s.workers)
  {
    var t, w := Fire(s, a).value, s.workers[a.i];
    assert WorkerOk(s.ctl, w);
    if a.Work? { WorkerRankFalls(s.ctl, s.count, w); }
    RanksUpdate(s.workers, a.i, t.workers[a.i]);
  }

  // While the coordinator polls, the workers take at most twelve steps each.
  lemma {:induction false} RoundBounded(s: State, run: seq<Action>)
    requires Inv(s) && s.ctl.cpc.Collect? && WorkersOnly(run) && Exec(s, run).Some?
    ensures var t := Exec(s, run).value; Inv(t) && t.ctl == s.ctl && |run| + RoundRanks(t.workers) <= RoundRanks(s.workers)
    ensures |run| <= 12 * |s.workers|
    decreases |run|
  {
    RanksBound(s.workers);
    if run != [] {
      RankFalls(s, run[0]);
      FireKeepsInv(s, run[0]);
      RoundBounded(Fire(s, run[0]).value, run[1..]);
    }
  }

  // From every state of an open round the workers can come to rest.
  lemma {:induction false} RoundComesToRest(s: State) returns (run: seq<Action>)
    requires Inv(s) && s.ctl.cpc.Collect?
    ensures WorkersOnly(run) && Exec(s, run).Some? && WorkersQuiet(Exec(s, run).value)
    decreases RoundRanks(s.workers)
  {
    if i :| 0 <= i < |s.workers| && WorkerStep(s.ctl, s.count, s.workers[i]).Some? {
      RankFalls(s, Work(i));
      FireKeepsInv(s, Work(i));
      var rest := RoundComesToRest(Fire(s, Work(i)).value);
      run := [Work(i)] + rest;
      assert run[1..] == rest;
    } else {
      run := [];
    }
  }

  // -------------------------------------------------------- who is absent at rest

  // A worker that is not back from the previous round when end_flag has been cleared.
  predicate NotBack(w: Worker) { w.pc.EndCall? || w.pc.EndBlocked? || w.pc.Raised? }

  predicate AllBack(ws: seq<Worker>) { forall i | 0 <= i < |ws| :: !NotBack(ws[i]) }

  predicate NoRaises(run: seq<Action>) { forall k | 0 <= k < |run| :: !run[k].Raise? }

  // Over TCP the name `server` has to be bound by an earlier round.
  predicate ServerKnown(c: Control) { c.cmd.udp || c.past != [] }

  lemma {:induction false} AbsentAtOpening(s: State)
    requires Inv(s) && s.ctl.cpc.SetStart?
    ensures NoneAbsent(CoordStep(s).value) <==> AllBack(s.workers)
  {
    var t := CoordStep(s).value;
    forall i | 0 <= i < |s.workers| ensures Absent(t.ctl, t.workers[i]) <==> NotBack(s.workers[i]) {
      assert WorkerOk(s.ctl, s.workers[i]);
    }
  }

  // A worker's own step makes nobody absent while `server` is known.
  lemma {:induction false} WorkKeepsPresent(s: State, i: nat)
    requires Inv(s) && s.ctl.cpc.Collect? && Fire(s, Work(i)).Some? && ServerKnown(s.ctl)
    ensures NoneAbsent(Fire(s, Work(i)).value) <==> NoneAbsent(s)
  {
    var t := Fire(s, Work(i)).value;
    assert WorkerOk(s.ctl, s.workers[i]);
    assert Absent(t.ctl, t.workers[i]) <==> Absent(s.ctl, s.workers[i]);
    assert forall j | 0 <= j < |s.workers| && j != i :: t.workers[j] == s.workers[j];
  }

  lemma {:induction false} PresentAfterRun(s: State, run: seq<Action>)
    requires Inv(s) && s.ctl.cpc.Collect? && WorkersOnly(run) && Exec(s, run).Some? && ServerKnown(s.ctl)
    ensures NoneAbsent(Exec(s, run).value) <==> NoneAbsent(s) && NoRaises(run)
    decreases |run|
  {
    if run != [] {
      var t := Fire(s, run[0]).value;
      FireKeepsInv(s, run[0]);
      PresentAfterRun(t, run[1..]);
      if run[0].Work? {
        WorkKeepsPresent(s, run[0].i);
        assert NoRaises(run) <==> NoRaises(run[1..]) by {
          assert forall k | 0 < k < |run| :: run[k] == run[1..][k - 1];
        }
      } else {
        assert Absent(t.ctl, t.workers[run[0].i]);
      }
    }
  }

  // Without it nobody gets through the round.
  lemma {:induction false} UnknownServerBlocks(s: State)
    requires Inv(s) && s.ctl.cpc.Collect? && !ServerKnown(s.ctl) && s.workers != []
    ensures CoordStep(s).None?
  {
    IncrementsBound(s.workers, |s.ctl.past| + 1);
    assert WorkerOk(s.ctl, s.workers[0]);
    UnknownServerStops(s.ctl, s.workers[0]);
  }

  lemma {:induction false} UnknownServerStops(c: Control, w: Worker)
    requires c.cpc.Collect? && WorkerOk(c, w) && !ServerKnown(c)
    ensures !Incremented(w, |c.past| + 1)
  {
    if w.log == Tasks(c.past) + [TaskOf(c.cmd)] { assert w.log[0] == TaskOf(c.cmd); }
  }

  // ------------------------------------------------------------------- the outcome

  // At any time while the coordinator polls, it can leave the round if and only if
  // every worker has completed its increment and no two increments overlapped.
  lemma {:induction false} LeavableIff(s: State, run: seq<Action>, t: State)
    requires Reachable(s) && s.ctl.cpc.SetStart? && WorkersOnly(run)
    requires Exec(CoordStep(s).value, run) == Some(t)
    ensures CoordStep(t).Some?
            <==> Completed(t) == |t.workers| && NoOverlapRun(CoordStep(s).value, run)
  {
    ReachableInv(s);
    CoordKeepsInv(s);
    var open := CoordStep(s).value;
    RoundBounded(open, run);
    IncrementsBound(t.workers, |t.ctl.past| + 1);
    if NoOverlapRun(open, run) {
      StepKeepsExact(s, Coord);
      RunKeepsExact(open, run);
    } else {
      OverlapInRun(open, run);
      LossyBlocks(t);
    }
  }

  // Exactly when a round ends.  When the workers have come to rest, the coordinator
  // can leave the round if and only if every worker was back from end_flag.wait()
  // when the round opened, the round is not the first one over TCP, no socket call
  // failed during it, and no two increments overlapped.  Otherwise nothing can move.
  lemma {:induction false} RoundEndsIff(s: State, run: seq<Action>, t: State)
    requires Reachable(s) && s.ctl.cpc.SetStart? && WorkersOnly(run)
    requires Exec(CoordStep(s).value, run) == Some(t) && WorkersQuiet(t)
    ensures CoordStep(t).Some?
            <==> && AllBack(s.workers)
                 && (ServerKnown(s.ctl) || s.workers == [])
                 && NoRaises(run)
                 && NoOverlapRun(CoordStep(s).value, run)
    ensures CoordStep(t).None? ==> forall a :: Fire(t, a).None?
  {
    ReachableInv(s);
    CoordKeepsInv(s);
    var open := CoordStep(s).value;
    RoundBounded(open, run);
    assert |t.workers| == |s.workers| by { WorkersKept(open, run); }
    LeavableIff(s, run, t);
    QuietIncrements(t);
    AbsentAtOpening(s);
    if ServerKnown(s.ctl) {
      PresentAfterRun(open, run);
    } else if s.workers != [] {
      UnknownServerBlocks(t);
    } else {
      NoWorkersNoSteps(open, run);
    }
  }

  lemma {:induction false} WorkersKept(s: State, run: seq<Action>)
    requires Exec(s, run).Some? && WorkersOnly(run)
    ensures |Exec(s, run).value.workers| == |s.workers|
    decreases |run|
  {
    if run != [] { WorkersKept(Fire(s, run[0]).value, run[1..]); }
  }

  lemma {:induction false} NoWorkersNoSteps(s: State, run: seq<Action>)
    requires Exec(s, run).Some? && WorkersOnly(run) && s.workers == []
    ensures run == []
  {
  }

  // In a round at rest every worker is absent or has completed its increment.
  lemma {:induction false} QuietIncrements(t: State)
    requires Inv(t) && t.ctl.cpc.Collect? && WorkersQuiet(t)
    ensures Completed(t) == |t.workers| <==> NoneAbsent(t)
    ensures CoordStep(t).None? ==> forall a :: Fire(t, a).None?
  {
    var round := |t.ctl.past| + 1;
    IncrementsBound(t.workers, round);
    forall i | 0 <= i < |t.workers|
      ensures Absent(t.ctl, t.workers[i]) <==> !Incremented(t.workers[i], round)
      ensures !t.workers[i].AtSocketCall()
    {
      assert WorkerOk(t.ctl, t.workers[i]);
      assert WorkerStep(t.ctl, t.count, t.workers[i]).None?;
    }
  }
}
