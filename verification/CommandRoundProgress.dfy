// What makes a round hang: absent workers and overlapping increments.
module CommandRoundProgress {
  import opened Options
  import opened CommandRound
  import opened CommandRoundSafety

  // A worker that will make no further increment in the round being opened or
  // open: it raised, or it is still waiting for the end of the previous round
  // although end_flag has already been cleared again.
  predicate Absent(c: Control, w: Worker) {
    w.pc.Raised? || (w.log == Tasks(c.past) && (w.pc.EndCall? || w.pc.EndBlocked?))
  }

  // Between clearing end_flag and clearing start_flag.
  predicate Opening(c: Control) { c.cpc.SetStart? || c.cpc.Collect? }

  // ------------------------------------------------- an absent worker is fatal

  lemma {:induction false} AbsentStaysAbsent(s: State, a: Action, i: nat)
    requires Inv(s) && Opening(s.ctl) && i < |s.workers| && Absent(s.ctl, s.workers[i]) && Fire(s, a).Some?
    ensures var t := Fire(s, a).value;
            Opening(t.ctl) && i < |t.workers| && t.ctl.past == s.ctl.past && Absent(t.ctl, t.workers[i])
  {
    match a
    case Issue(_) =>
    case Coord => if s.ctl.cpc.Collect? { AbsentBlocks(s, i); }
    case Work(j) => if j == i { AbsentStep(s.ctl, s.count, s.workers[i]); } else { assert Fire(s, a).value.workers[i] == s.workers[i]; }
    case Raise(j) =>
  }

  lemma {:induction false} AbsentStep(c: Control, count: nat, w: Worker)
    requires Opening(c) && ControlOk(c) && Absent(c, w) && WorkerStep(c, count, w).Some?
    ensures Absent(c, WorkerStep(c, count, w).value)
  {
  }

  // The coordinator cannot leave the round while a worker is absent.
  lemma {:induction false} AbsentBlocks(s: State, i: nat)
    requires Inv(s) && s.ctl.cpc.Collect? && i < |s.workers| && Absent(s.ctl, s.workers[i])
    ensures CoordStep(s).None?
  {
    IncrementsBound(s.workers, |s.ctl.past| + 1);
    assert WorkerOk(s.ctl, s.workers[i]);
    assert !Incremented(s.workers[i], |s.ctl.past| + 1);
  }

  // Once some worker is absent the coordinator never leaves the round.
  lemma {:induction false} AbsentHangsTheRound(s: State, i: nat, run: seq<Action>)
    requires Inv(s) && Opening(s.ctl) && i < |s.workers| && Absent(s.ctl, s.workers[i]) && Exec(s, run).Some?
    ensures Opening(Exec(s, run).value.ctl) && Exec(s, run).value.ctl.past == s.ctl.past
    decreases |run|
  {
    if run != [] {
      AbsentStaysAbsent(s, run[0], i);
      FireKeepsInv(s, run[0]);
      AbsentHangsTheRound(Fire(s, run[0]).value, i, run[1..]);
    }
  }

  // A worker that has incremented but not yet called end_flag.wait() when the next
  // round clears end_flag misses the set: that round never ends.
  lemma MissedEndFlagHangs(s: State, i: nat, run: seq<Action>)
    requires Reachable(s) && s.ctl.cpc.ClearEnd? && i < |s.workers| && s.workers[i].pc.EndCall?
    requires Exec(CoordStep(s).value, run).Some?
    ensures Opening(Exec(CoordStep(s).value, run).value.ctl)
  {
    ReachableInv(s);
    assert WorkerOk(s.ctl, s.workers[i]);
    CoordKeepsInv(s);
    AbsentHangsTheRound(CoordStep(s).value, i, run);
  }

  // The converse: absence arises only there, or from an exception.
  lemma {:induction false} AbsenceArises(s: State, a: Action, i: nat)
    requires Inv(s) && Fire(s, a).Some? && i < |s.workers|
    requires Opening(Fire(s, a).value.ctl) && Absent(Fire(s, a).value.ctl, Fire(s, a).value.workers[i])
    ensures (Opening(s.ctl) && Absent(s.ctl, s.workers[i]))
            || (s.ctl.cpc.ClearEnd? && s.workers[i].pc.EndCall?)
            || (Fire(s, a).value.workers[i].pc.Raised?)
  {
    assert WorkerOk(s.ctl, s.workers[i]);
    match a
    case Issue(_) =>
    case Coord =>
    case Work(j) => if j == i { PresentStep(s.ctl, s.count, s.workers[i]); }
    case Raise(j) => if j != i { assert Fire(s, a).value.workers[i] == s.workers[i]; }
  }

  lemma {:induction false} PresentStep(c: Control, count: nat, w: Worker)
    requires Opening(c) && ControlOk(c) && WorkerOk(c, w) && WorkerStep(c, count, w).Some?
    requires Absent(c, WorkerStep(c, count, w).value)
    ensures Absent(c, w) || WorkerStep(c, count, w).value.pc.Raised?
  {
  }

  // ------------------------------------------------------ quiescent open rounds

  // No worker can run (a worker waiting for a connection or a datagram counts as
  // able to run).
  predicate WorkersQuiet(s: State) {
    forall i | 0 <= i < |s.workers| :: WorkerStep(s.ctl, s.count, s.workers[i]).None?
  }

  predicate NoneAbsent(s: State) {
    forall i | 0 <= i < |s.workers| :: !Absent(s.ctl, s.workers[i])
  }

  // ------------------------------------------------------------ lost increments

  // A step that does not let two increments overlap.
  predicate NoOverlap(s: State, a: Action) {
    a.Work? && a.i < |s.workers| && s.workers[a.i].pc.IncRead? ==>
      forall j | 0 <= j < |s.workers| :: !s.workers[j].pc.IncWrite?
  }

  predicate NoOverlapRun(s: State, run: seq<Action>)
    decreases |run|
  {
    run != [] && Fire(s, run[0]).Some? ==> NoOverlap(s, run[0]) && NoOverlapRun(Fire(s, run[0]).value, run[1..])
  }

  // Without overlap the count is exactly the number of completed increments.
  predicate CountExact(s: State) {
    s.ctl.cpc.Collect? ==>
      && s.count == Completed(s)
      && WritersExact(s.workers, s.count)
  }

  // At most one worker is about to write, and what it read is still current.
  predicate WritersExact(ws: seq<Worker>, count: nat) {
    && (forall i | 0 <= i < |ws| && ws[i].pc.IncWrite? :: ws[i].read == count)
    && (forall i, j | 0 <= i < |ws| && 0 <= j < |ws| && ws[i].pc.IncWrite? && ws[j].pc.IncWrite? :: i == j)
  }

  lemma {:induction false} NoIncrementsYet(s: State)
    requires Inv(s) && s.ctl.cpc.SetStart?
    ensures Increments(WakeStart(s.workers), |s.ctl.past| + 1) == 0
  {
    assert forall i | 0 <= i < |s.workers| :: !Incremented(WakeStart(s.workers)[i], |s.ctl.past| + 1) by {
      forall i | 0 <= i < |s.workers| ensures !Incremented(WakeStart(s.workers)[i], |s.ctl.past| + 1) {
        assert WorkerOk(s.ctl, s.workers[i]);
      }
    }
    NoneIncremented(WakeStart(s.workers), |s.ctl.past| + 1);
  }

  lemma {:induction false} NoneIncremented(ws: seq<Worker>, round: nat)
    requires forall i | 0 <= i < |ws| :: !Incremented(ws[i], round)
    ensures Increments(ws, round) == 0
  {
    if ws != [] { NoneIncremented(ws[1..], round); }
  }

  lemma WritersAfterStep(ws: seq<Worker>, i: nat, w: Worker, count: nat, count': nat)
    requires i < |ws| && WritersExact(ws, count)
    requires w.pc.IncWrite? ==> w.read == count && forall j | 0 <= j < |ws| :: !ws[j].pc.IncWrite?
    requires count' == count || ws[i].pc.IncWrite?
    requires w.pc.IncWrite? ==> count' == count
    ensures WritersExact(ws[i := w], count')
  {
  }

  lemma {:induction false} WorkKeepsExact(s: State, i: nat)
    requires Inv(s) && CountExact(s) && s.ctl.cpc.Collect? && NoOverlap(s, Work(i)) && Fire(s, Work(i)).Some?
    ensures CountExact(Fire(s, Work(i)).value)
  {
    WorkEffect(s, i);
    WritersAfterStep(s.workers, i, WorkerStep(s.ctl, s.count, s.workers[i]).value, s.count, Fire(s, Work(i)).value.count);
  }

  lemma {:induction false} OpensExact(s: State)
    requires Inv(s) && s.ctl.cpc.SetStart?
    ensures CountExact(CoordStep(s).value)
  {
    NoIncrementsYet(s);
    forall i | 0 <= i < |s.workers| ensures !WakeStart(s.workers)[i].pc.IncWrite? {
      assert WorkerOk(s.ctl, s.workers[i]);
    }
  }

  lemma {:induction false} StepKeepsExact(s: State, a: Action)
    requires Inv(s) && CountExact(s) && NoOverlap(s, a) && Fire(s, a).Some?
    ensures CountExact(Fire(s, a).value)
  {
    var t := Fire(s, a).value;
    match a
    case Issue(cmd) =>
    case Coord =>
      if s.ctl.cpc.SetStart? { OpensExact(s); }
    case Work(i) => if s.ctl.cpc.Collect? { WorkKeepsExact(s, i); }
    case Raise(i) => if s.ctl.cpc.Collect? { RaiseKeepsExact(s, i); }
  }

  lemma {:induction false} RaiseKeepsExact(s: State, i: nat)
    requires CountExact(s) && s.ctl.cpc.Collect? && Fire(s, Raise(i)).Some?
    ensures CountExact(Fire(s, Raise(i)).value)
  {
    IncrementsUpdate(s.workers, i, s.workers[i].(pc := Raised), |s.ctl.past| + 1);
    WritersAfterStep(s.workers, i, s.workers[i].(pc := Raised), s.count, s.count);
  }

  lemma {:induction false} RunKeepsExact(s: State, run: seq<Action>)
    requires Inv(s) && CountExact(s) && NoOverlapRun(s, run) && Exec(s, run).Some?
    ensures CountExact(Exec(s, run).value)
    decreases |run|
  {
    if run != [] {
      StepKeepsExact(s, run[0]);
      FireKeepsInv(s, run[0]);
      RunKeepsExact(Fire(s, run[0]).value, run[1..]);
    }
  }

  // ----------------------------------------------------------- concrete hangs

  lemma {:induction false} ExecAppend(s: State, run: seq<Action>, a: Action)
    requires Exec(s, run).Some?
    ensures Exec(s, run + [a]) == Fire(Exec(s, run).value, a)
    decreases |run|
  {
    if run == [] {
      var t := Fire(s, a);
      if t.Some? { assert Exec(t.value, []) == t; }
    } else {
      assert (run + [a])[1..] == run[1..] + [a];
      ExecAppend(Fire(s, run[0]).value, run[1..], a);
    }
  }

  // One more step of a run from s.
  lemma Then(s: State, t: State, a: Action) returns (t': State)
    requires Reaches(s, t) && Fire(t, a).Some?
    ensures t' == Fire(t, a).value && Reaches(s, t')
  {
    var run :| Exec(s, run) == Some(t);
    ExecAppend(s, run, a);
    t' := Fire(t, a).value;
    assert Exec(s, run + [a]) == Some(t');
  }

  // The coordinator of an idle system takes up "ping" ...
  lemma TakeUpPing(s: State, t: State) returns (t': State)
    requires Reaches(s, t) && t.ctl.cpc.Idle?
    ensures Reaches(s, t')
    ensures t' == State(t.ctl.(cmd := PING, usingUdp := true, cpc := ClearEnd), 0, t.workers)
  {
    t' := Then(s, t, Issue(PING));
    t' := Then(s, t', Coord);
    t' := Then(s, t', Coord);
  }

  // ... and broadcasts it.
  lemma Ping(s: State, t: State) returns (t': State)
    requires Reaches(s, t) && t.ctl.cpc.Idle?
    ensures Reaches(s, t')
    ensures t' == State(t.ctl.(cmd := PING, usingUdp := true, end := false, start := true, cpc := Collect), 0, WakeStart(t.workers))
  {
    t' := TakeUpPing(s, t);
    t' := Then(s, t', Coord);
    t' := Then(s, t', Coord);
  }

  const PING := Command(true, "ping")

  // Worker i runs from start_flag.wait() of an open UDP round up to the increment.
  lemma Serve(s: State, t: State, i: nat) returns (t': State)
    requires Reaches(s, t) && i < |t.workers| && t.workers[i].pc.StartCall?
    requires t.ctl.start && !t.ctl.exit && t.ctl.usingUdp
    ensures Reaches(s, t') && t'.ctl == t.ctl && t'.count == t.count
    ensures t'.workers == t.workers[i := Worker(IncRead, t.workers[i].read, None, true, t.workers[i].log + [Task(true, None)])]
  {
    t' := Then(s, t, Work(i));
    t' := Then(s, t', Work(i));
    t' := Then(s, t', Work(i));
    t' := Then(s, t', Work(i));
  }

  lemma Connect(s: State, t: State, i: nat) returns (t': State)
    requires Reaches(s, t) && i < |t.workers| && t.workers[i].pc.OuterCheck? && !t.ctl.exit
    ensures Reaches(s, t') && t' == t.(workers := t.workers[i := t.workers[i].(pc := StartCall)])
  {
    t' := Then(s, t, Work(i));
    t' := Then(s, t', Work(i));
    t' := Then(s, t', Work(i));
  }

  function Rested(pc: WorkerPc, read: nat): Worker { Worker(pc, read, None, true, [Task(true, None)]) }

  function PingControl(cpc: CoordPc, past: seq<Command>): Control {
    Control(cpc, PING, cpc.Collect?, cpc.Idle?, false, true, "", past)
  }

  // One board up to the point where it is about to increment.
  lemma OneServed(s0: State) returns (t: State)
    requires s0 == Init(1)
    ensures Reaches(s0, t) && t == State(PingControl(Collect, []), 0, [Rested(IncRead, 0)])
  {
    assert Exec(s0, []) == Some(s0);
    t := Connect(s0, s0, 0);
    t := Ping(s0, t);
    assert t == State(PingControl(Collect, []), 0, [Worker(StartCall, 0, None, false, [])]);
    assert [] + [Task(true, None)] == [Task(true, None)];
    t := Serve(s0, t, 0);
  }

  // One board serves one command and stops just before end_flag.wait().
  lemma OneRound(s0: State) returns (t: State)
    requires s0 == Init(1)
    ensures Reaches(s0, t) && t == State(PingControl(Idle, [PING]), 1, [Rested(EndCall, 0)])
  {
    t := OneServed(s0);
    t := Then(s0, t, Work(0));
    t := Then(s0, t, Work(0));
    assert t == State(PingControl(Collect, []), 1, [Rested(EndCall, 0)]);
    t := LeaveRound(s0, t);
    assert [] + [PING] == [PING];
  }

  // The coordinator leaves the round of "ping".
  lemma LeaveRound(s: State, t: State) returns (t': State)
    requires Reaches(s, t) && t.ctl.cpc.Collect? && t.count == |t.workers|
    ensures Reaches(s, t')
    ensures t' == State(t.ctl.(start := false, end := true, cpc := Idle, past := t.ctl.past + [t.ctl.cmd]), t.count, WakeEnd(t.workers))
  {
    t' := Then(s, t, Coord);
    t' := Then(s, t', Coord);
    t' := Then(s, t', Coord);
  }

  // Nothing can move: the coordinator polls a count that no longer changes.
  ghost predicate Hung(s: State) { s.ctl.cpc.Collect? && forall a :: Fire(s, a).None? }

  lemma HungWhenBlocked(s: State)
    requires s.ctl.cpc.Collect? && s.count != |s.workers|
    requires forall i | 0 <= i < |s.workers| :: s.workers[i].pc.EndBlocked?
    ensures Hung(s)
  {
  }

  // One board, two commands, no overlap: the worker is slow to reach
  // end_flag.wait() after the first command, and the second one never ends.
  lemma MissedEndFlagExample()
    ensures exists s :: Reachable(s) && Hung(s) && s.ctl.past == [PING]
  {
    var s0 := Init(1);
    var t := OneRound(s0);
    t := Ping(s0, t);
    assert t == State(PingControl(Collect, [PING]), 0, [Rested(EndCall, 0)]);
    t := Then(s0, t, Work(0));
    HungWhenBlocked(t);
    assert Reachable(t);
  }

  // Two boards up to the point where both are about to increment.
  lemma TwoServed(s0: State) returns (t: State)
    requires s0 == Init(2)
    ensures Reaches(s0, t) && t == State(PingControl(Collect, []), 0, [Rested(IncRead, 0), Rested(IncRead, 0)])
  {
    assert Exec(s0, []) == Some(s0);
    t := Connect(s0, s0, 0);
    t := Connect(s0, t, 1);
    t := Ping(s0, t);
    var w := Worker(StartCall, 0, None, false, []);
    assert t == State(PingControl(Collect, []), 0, [w, w]);
    assert [] + [Task(true, None)] == [Task(true, None)];
    t := Serve(s0, t, 0);
    assert t == State(PingControl(Collect, []), 0, [Rested(IncRead, 0), w]);
    t := Serve(s0, t, 1);
  }

  // Both read the count before either writes it back.
  lemma BothIncremented(s0: State) returns (t: State)
    requires s0 == Init(2)
    ensures Reaches(s0, t) && t == State(PingControl(Collect, []), 1, [Rested(EndCall, 0), Rested(EndCall, 0)])
  {
    t := TwoServed(s0);
    t := Then(s0, t, Work(0));
    t := Then(s0, t, Work(1));
    assert t == State(PingControl(Collect, []), 0, [Rested(IncWrite, 0), Rested(IncWrite, 0)]);
    t := Then(s0, t, Work(0));
    t := Then(s0, t, Work(1));
  }

  // Two boards, one command: both threads read the count before either writes it
  // back, one increment is lost, and the command never ends.
  lemma LostIncrementExample()
    ensures exists s :: Reachable(s) && Hung(s) && NoneAbsent(s)
  {
    var s0 := Init(2);
    var t := BothIncremented(s0);
    t := Then(s0, t, Work(0));
    t := Then(s0, t, Work(1));
    HungWhenBlocked(t);
    assert Reachable(t);
    assert forall i | 0 <= i < |t.workers| :: |t.workers[i].log| == 1;
  }
}
