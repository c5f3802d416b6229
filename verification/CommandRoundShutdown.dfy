// Shutdown: once exit has been issued, every run is finite and no further command
// is served.
module CommandRoundShutdown {
  import opened Options
  import opened CommandRound
  import opened CommandRoundSafety

  // The coordinator is carrying out exit.
  predicate Stopping(c: Control) { c.cmd.IsExit() && !c.cpc.Idle? }

  // An upper bound on the steps a thread still has to take.
  function WorkerRank(w: Worker, exit: bool): nat {
    match w.pc
    case OuterCheck => if exit then 1 else 12
    case Accept => if exit then 3 else 11
    case InnerCheck => if exit then 2 else 10
    case StartCall => 9
    case StartBlocked => 8
    case StartWoken => 7
    case ExitCheck => 6
    case EndCall => 13
    case EndWoken => 13
    case _ => 0
  }

  function CoordRank(c: Control): nat {
    match c.cpc
    case SetMsg => 6
    case ResetCount => 5
    case SetMode => 4
    case SetExit => 3
    case SetStartExit => 2
    case Join => 1
    case _ => 0
  }

  function WorkersRank(ws: seq<Worker>, exit: bool): nat {
    if ws == [] then 0 else WorkerRank(ws[0], exit) + WorkersRank(ws[1..], exit)
  }

  function Rank(s: State): nat { CoordRank(s.ctl) + WorkersRank(s.workers, s.ctl.exit) }

  lemma {:induction false} RankUpdate(ws: seq<Worker>, i: nat, w: Worker, exit: bool)
    requires i < |ws|
    ensures WorkersRank(ws[i := w], exit) == WorkersRank(ws, exit) - WorkerRank(ws[i], exit) + WorkerRank(w, exit)
  {
    if i == 0 {
      assert ws[0 := w][1..] == ws[1..];
    } else {
      assert ws[i := w][1..] == ws[1..][i - 1 := w];
      RankUpdate(ws[1..], i - 1, w, exit);
    }
  }

  lemma {:induction false} RankWake(ws: seq<Worker>, exit: bool)
    ensures WorkersRank(WakeStart(ws), exit) <= WorkersRank(ws, exit)
  {
    if ws != [] {
      RankWake(ws[1..], exit);
      assert WakeStart(ws)[1..] == WakeStart(ws[1..]);
    }
  }

  lemma {:induction false} RankExit(ws: seq<Worker>)
    ensures WorkersRank(ws, true) <= WorkersRank(ws, false)
  {
    if ws != [] { RankExit(ws[1..]); }
  }

  lemma StoppingStepFacts(c: Control, count: nat, w: Worker)
    requires ControlOk(c) && Stopping(c) && WorkerOk(c, w) && WorkerStep(c, count, w).Some?
    ensures var w' := WorkerStep(c, count, w).value;
            w'.log == w.log && NoTask(w') && WorkerRank(w', c.exit) < WorkerRank(w, c.exit)
  {
    assert Resting(c, w);
  }

  predicate NoTask(w: Worker) { !w.pc.ReadMode? && !w.pc.Send? && !w.pc.Receive? && !w.pc.IncRead? && !w.pc.IncWrite? }

  // t comes after s in a shutdown: nothing was served in between.
  predicate NothingServed(s: State, t: State) {
    && t.ctl.past == s.ctl.past && |t.workers| == |s.workers|
    && forall i | 0 <= i < |s.workers| :: t.workers[i].log == s.workers[i].log && NoTask(t.workers[i])
  }

  lemma StoppingWorkers(s: State)
    requires Inv(s) && Stopping(s.ctl)
    ensures forall i | 0 <= i < |s.workers| :: Resting(s.ctl, s.workers[i]) && NoTask(s.workers[i])
  {
    forall i | 0 <= i < |s.workers| ensures Resting(s.ctl, s.workers[i]) && NoTask(s.workers[i]) {
      assert WorkerOk(s.ctl, s.workers[i]);
    }
  }

  lemma {:induction false} StoppingCoordRank(s: State)
    requires ControlOk(s.ctl) && Stopping(s.ctl) && CoordStep(s).Some?
    ensures var t := CoordStep(s).value; Stopping(t.ctl) && Rank(t) < Rank(s)
  {
    match s.ctl.cpc
    case SetStartExit => RankWake(s.workers, s.ctl.exit);
    case SetExit => RankExit(s.workers);
    case _ =>
  }

  lemma {:induction false} StoppingCoord(s: State)
    requires Inv(s) && Stopping(s.ctl) && CoordStep(s).Some?
    ensures var t := CoordStep(s).value; Stopping(t.ctl) && Rank(t) < Rank(s) && NothingServed(s, t)
  {
    StoppingCoordRank(s);
    StoppingWorkers(s);
  }

  lemma {:induction false} StoppingWork(s: State, i: nat)
    requires Inv(s) && Stopping(s.ctl) && Fire(s, Work(i)).Some?
    ensures var t := Fire(s, Work(i)).value; Stopping(t.ctl) && Rank(t) < Rank(s) && NothingServed(s, t)
  {
    StoppingWorkers(s);
    assert WorkerOk(s.ctl, s.workers[i]);
    StoppingStepFacts(s.ctl, s.count, s.workers[i]);
    RankUpdate(s.workers, i, Fire(s, Work(i)).value.workers[i], s.ctl.exit);
  }

  lemma {:induction false} StoppingRaise(s: State, i: nat)
    requires Inv(s) && Stopping(s.ctl) && Fire(s, Raise(i)).Some?
    ensures var t := Fire(s, Raise(i)).value; Stopping(t.ctl) && Rank(t) < Rank(s) && NothingServed(s, t)
  {
    StoppingWorkers(s);
    RankUpdate(s.workers, i, s.workers[i].(pc := Raised), s.ctl.exit);
  }

  // Every step of a shutdown decreases the rank, starts no task and stores nothing.
  lemma {:induction false} StoppingStep(s: State, a: Action)
    requires Inv(s) && Stopping(s.ctl) && Fire(s, a).Some?
    ensures var t := Fire(s, a).value; Stopping(t.ctl) && Rank(t) < Rank(s) && NothingServed(s, t)
  {
    match a
    case Issue(cmd) =>
    case Coord => StoppingCoord(s);
    case Work(i) => StoppingWork(s, i);
    case Raise(i) => StoppingRaise(s, i);
  }

  // Over whole runs: after exit has been issued no worker starts another task, no
  // response is stored, and the run has at most Rank(s) steps.
  lemma {:induction false} ShutdownTerminates(s: State, run: seq<Action>)
    requires Inv(s) && Stopping(s.ctl) && Exec(s, run).Some?
    ensures var t := Exec(s, run).value;
            && |run| + Rank(t) <= Rank(s)
            && Inv(t) && Stopping(t.ctl) && NothingServed(s, t)
    decreases |run|
  {
    if run == [] {
      StoppingWorkers(s);
    } else {
      StoppingStep(s, run[0]);
      FireKeepsInv(s, run[0]);
      ShutdownTerminates(Fire(s, run[0]).value, run[1..]);
    }
  }

  lemma {:induction false} RankBound(ws: seq<Worker>, exit: bool)
    ensures WorkersRank(ws, exit) <= 13 * |ws|
  {
    if ws != [] { RankBound(ws[1..], exit); }
  }

  // The same from the operator's side: after exit is issued to an idle coordinator,
  // no continuation takes more than 13 steps per board and 6 more, and no worker
  // stores another response.
  lemma ExitFromIdle(s: State, cmd: Command, run: seq<Action>)
    requires Reachable(s) && s.ctl.cpc.Idle? && cmd.IsExit()
    requires Exec(Fire(s, Issue(cmd)).value, run).Some?
    ensures |run| <= 6 + 13 * |s.workers|
    ensures NothingServed(s, Exec(Fire(s, Issue(cmd)).value, run).value)
  {
    ReachableInv(s);
    IssueKeepsInv(s, cmd);
    ShutdownTerminates(Fire(s, Issue(cmd)).value, run);
    RankBound(s.workers, s.ctl.exit);
  }

  // Nothing can move except by a board connecting (or its accept failing).
  predicate OnlyConnectionsPending(s: State) {
    && CoordStep(s).None?
    && forall i | 0 <= i < |s.workers| && !s.workers[i].pc.Accept? :: WorkerStep(s.ctl, s.count, s.workers[i]).None?
  }

  // Where a shutdown comes to rest, every worker whose board has connected has
  // ended, and the coordinator has exited unless some board never connected.
  lemma ShutdownOutcome(s: State)
    requires Reachable(s) && Stopping(s.ctl) && OnlyConnectionsPending(s)
    ensures forall i | 0 <= i < |s.workers| :: s.workers[i].Finished() || s.workers[i].pc.Accept?
    ensures s.ctl.cpc.Exited? || s.ctl.cpc.Join?
    ensures s.ctl.cpc.Exited? <==> forall i | 0 <= i < |s.workers| :: !s.workers[i].pc.Accept?
  {
    ReachableInv(s);
    forall i | 0 <= i < |s.workers| ensures s.workers[i].Finished() || s.workers[i].pc.Accept? {
      assert WorkerOk(s.ctl, s.workers[i]);
    }
    if s.ctl.cpc.Join? {
      var w :| w in s.workers && !w.Finished();
      var i :| 0 <= i < |s.workers| && s.workers[i] == w;
      assert s.workers[i].pc.Accept?;
    }
    if s.ctl.cpc.Exited? {
      forall i | 0 <= i < |s.workers| ensures s.workers[i].Finished() {
        assert WorkerOk(s.ctl, s.workers[i]);
      }
    }
  }
}
