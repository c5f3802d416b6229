// Safety of the command round, for any number of boards and every interleaving.
module CommandRoundSafety {
  import opened Options
  import opened CommandRound

  // ------------------------------------------------------------- the invariant

  predicate OnExitPath(c: Control) { c.cpc.SetExit? || c.cpc.SetStartExit? || c.cpc.Join? || c.cpc.Exited? }

  // Past the mode change of a command other than exit.
  predicate OnRoundPath(c: Control) {
    c.cpc.ClearEnd? || c.cpc.SetStart? || c.cpc.Collect? || c.cpc.ClearStart? || c.cpc.SetEnd?
  }

  predicate ControlOk(c: Control) {
    && (c.start <==> c.cpc.Collect? || c.cpc.ClearStart? || c.cpc.Join? || c.cpc.Exited?)
    && (c.exit <==> c.cpc.SetStartExit? || c.cpc.Join? || c.cpc.Exited?)
    && (c.end <==> c.past != [] && (!OnRoundPath(c) || c.cpc.ClearEnd?))
    && (OnExitPath(c) ==> c.cmd.IsExit())
    && (OnRoundPath(c) ==> !c.cmd.IsExit() && c.usingUdp == c.cmd.udp)
    && (!c.cpc.Idle? && !c.cpc.SetMsg? && !c.cmd.udp ==> c.strToSend == c.cmd.msg)
  }

  // A worker waits for its board's connection only before its first round.
  predicate ConnectingOk(c: Control, w: Worker) {
    && (w.pc.Accept? ==> c.past == [])
    && (w.pc.OuterCheck? ==> c.past == [] || c.exit)
  }

  // A worker that has not yet stored its response of the current round.
  predicate Pending(c: Control, w: Worker) {
    && w.log == Tasks(c.past)
    && !w.pc.StartBlocked? && !w.pc.IncRead? && !w.pc.IncWrite?
    && (w.pc.Send? ==> !c.cmd.udp)
    && (w.pc.Receive? ==> w.sent == TaskOf(c.cmd).sent)
    && !w.pc.Returned?
    && ConnectingOk(c, w)
  }

  // A worker that has stored it.
  predicate Served(c: Control, w: Worker) {
    && w.log == Tasks(c.past) + [TaskOf(c.cmd)]
    && (w.pc.IncRead? || w.pc.IncWrite? || w.pc.EndCall? || w.pc.EndBlocked? || w.pc.Raised?)
  }

  // A worker while no round is open.
  predicate Resting(c: Control, w: Worker) {
    && w.log == Tasks(c.past)
    && (w.InTask() ==> c.start && (w.pc.StartWoken? || w.pc.ExitCheck?))
    && (w.pc.StartBlocked? ==> !c.start)
    && (w.pc.EndBlocked? ==> c.cpc.SetStart?)
    && (w.pc.EndCall? ==> c.past != [])
    && (w.pc.Returned? ==> c.exit)
    && (w.pc.Raised? ==> c.past == [])
    && (c.cpc.Exited? ==> w.Finished())
    && ConnectingOk(c, w)
  }

  // `server` is bound from the first UDP task on.
  predicate BindingOk(c: Control, w: Worker) {
    && (w.serverBound ==> w.log != [])
    && (w.log != [] ==> w.serverBound || w.pc.Raised?)
    && (w.log != [] ==> w.log[0].udp || (w.pc.Raised? && c.past == []))
  }

  predicate WorkerOk(c: Control, w: Worker) {
    && BindingOk(c, w)
    && match c.cpc
       case Collect => Pending(c, w) || Served(c, w)
       case ClearStart => Served(c, w) && (w.pc.EndCall? || w.pc.EndBlocked?)
       case SetEnd => Served(c, w) && (w.pc.EndCall? || w.pc.EndBlocked?)
       case _ => Resting(c, w)
  }

  // Workers whose increment of the round with the given number is complete.
  predicate Incremented(w: Worker, round: nat) {
    |w.log| == round && (w.pc.EndCall? || w.pc.EndBlocked?)
  }

  function Increments(ws: seq<Worker>, round: nat): nat {
    if ws == [] then 0
    else Increments(ws[1..], round) + if Incremented(ws[0], round) then 1 else 0
  }

  // The increments completed in the round that is open.
  function Completed(s: State): nat { Increments(s.workers, |s.ctl.past| + 1) }

  // The count never exceeds the completed increments of this round, nor does a
  // value read but not yet written back.
  predicate CountOk(s: State) {
    && (s.ctl.cpc.SetMode? || s.ctl.cpc.ClearEnd? || s.ctl.cpc.SetStart? ==> s.count == 0)
    && (s.ctl.cpc.Collect? ==>
          && s.count <= Completed(s)
          && forall i | 0 <= i < |s.workers| && s.workers[i].pc.IncWrite? :: s.workers[i].read <= Completed(s))
  }

  predicate Inv(s: State) {
    && ControlOk(s.ctl)
    && CountOk(s)
    && forall i | 0 <= i < |s.workers| :: WorkerOk(s.ctl, s.workers[i])
  }

  // --------------------------------------------------------- counting increments

  lemma {:induction false} IncrementsUpdate(ws: seq<Worker>, i: nat, w: Worker, round: nat)
    requires i < |ws|
    ensures Increments(ws[i := w], round)
            == Increments(ws, round) - (if Incremented(ws[i], round) then 1 else 0) + (if Incremented(w, round) then 1 else 0)
  {
    if i == 0 {
      assert ws[0 := w][1..] == ws[1..];
    } else {
      assert ws[i := w][1..] == ws[1..][i - 1 := w];
      IncrementsUpdate(ws[1..], i - 1, w, round);
    }
  }

  lemma {:induction false} IncrementsBound(ws: seq<Worker>, round: nat)
    ensures Increments(ws, round) <= |ws|
    ensures Increments(ws, round) == |ws| <==> forall i | 0 <= i < |ws| :: Incremented(ws[i], round)
  {
    if ws != [] {
      IncrementsBound(ws[1..], round);
      assert forall i | 1 <= i < |ws| :: ws[i] == ws[1..][i - 1];
    }
  }

  // -------------------------------------------------------------- preservation

  lemma IssueKeepsInv(s: State, cmd: Command)
    requires Inv(s) && s.ctl.cpc.Idle?
    ensures Inv(Fire(s, Issue(cmd)).value)
  {
    var t := Fire(s, Issue(cmd)).value;
    forall i | 0 <= i < |t.workers| ensures WorkerOk(t.ctl, t.workers[i]) {
      assert WorkerOk(s.ctl, s.workers[i]);
    }
  }

  lemma CoordKeepsControl(s: State)
    requires ControlOk(s.ctl) && CoordStep(s).Some?
    ensures ControlOk(CoordStep(s).value.ctl)
  {
  }

  // Every coordinator step that neither opens nor closes a round.
  lemma {:induction false} CoordKeepsResting(s: State, i: nat)
    requires ControlOk(s.ctl) && CoordStep(s).Some? && i < |s.workers|
    requires Resting(s.ctl, s.workers[i]) && !s.ctl.cpc.SetStart?
    requires !s.ctl.cpc.Collect? && !s.ctl.cpc.ClearStart? && !s.ctl.cpc.SetEnd?
    ensures Resting(CoordStep(s).value.ctl, CoordStep(s).value.workers[i])
  {
  }

  lemma {:induction false} CoordOpens(s: State, i: nat)
    requires ControlOk(s.ctl) && s.ctl.cpc.SetStart? && i < |s.workers| && Resting(s.ctl, s.workers[i])
    ensures Pending(CoordStep(s).value.ctl, CoordStep(s).value.workers[i])
  {
  }

  lemma {:induction false} CoordCloses(s: State, i: nat)
    requires ControlOk(s.ctl) && s.ctl.cpc.SetEnd? && i < |s.workers|
    requires Served(s.ctl, s.workers[i]) && (s.workers[i].pc.EndCall? || s.workers[i].pc.EndBlocked?)
    ensures Resting(CoordStep(s).value.ctl, CoordStep(s).value.workers[i])
  {
    ClosedResting(s.ctl, s.workers[i]);
  }

  lemma {:induction false} ClosedResting(c: Control, w: Worker)
    requires ControlOk(c) && c.cpc.SetEnd? && Served(c, w) && (w.pc.EndCall? || w.pc.EndBlocked?)
    ensures Resting(c.(end := true, cpc := Idle, past := c.past + [c.cmd]),
                    if w.pc.EndBlocked? then w.(pc := EndWoken) else w)
  {
    TasksAppend(c.past, c.cmd);
  }

  lemma {:induction false} CoordStopsPolling(s: State, i: nat)
    requires Inv(s) && s.ctl.cpc.Collect? && CoordStep(s).Some? && i < |s.workers|
    ensures Served(s.ctl, s.workers[i]) && (s.workers[i].pc.EndCall? || s.workers[i].pc.EndBlocked?)
  {
    IncrementsBound(s.workers, |s.ctl.past| + 1);
    assert Incremented(s.workers[i], |s.ctl.past| + 1) && WorkerOk(s.ctl, s.workers[i]);
  }

  lemma {:induction false} CoordKeepsBinding(s: State, i: nat)
    requires Inv(s) && CoordStep(s).Some? && i < |s.workers|
    ensures BindingOk(CoordStep(s).value.ctl, CoordStep(s).value.workers[i])
  {
    assert WorkerOk(s.ctl, s.workers[i]);
  }

  lemma {:induction false} CoordKeepsWorker(s: State, i: nat)
    requires Inv(s) && CoordStep(s).Some? && i < |s.workers|
    ensures WorkerOk(CoordStep(s).value.ctl, CoordStep(s).value.workers[i])
  {
    CoordKeepsBinding(s, i);
    assert WorkerOk(s.ctl, s.workers[i]);
    match s.ctl.cpc
    case SetStart => CoordOpens(s, i);
    case Collect => CoordStopsPolling(s, i);
    case ClearStart =>
    case SetEnd => CoordCloses(s, i);
    case _ => CoordKeepsResting(s, i);
  }

  lemma TasksAppend(past: seq<Command>, cmd: Command)
    ensures Tasks(past + [cmd]) == Tasks(past) + [TaskOf(cmd)]
  {
    assert (past + [cmd])[..|past|] == past;
  }

  lemma CoordKeepsInv(s: State)
    requires Inv(s) && CoordStep(s).Some?
    ensures Inv(CoordStep(s).value)
  {
    CoordKeepsControl(s);
    var t := CoordStep(s).value;
    forall i | 0 <= i < |t.workers| ensures WorkerOk(t.ctl, t.workers[i]) {
      CoordKeepsWorker(s, i);
    }
    forall i | 0 <= i < |t.workers| && t.workers[i].pc.IncWrite? ensures !t.ctl.cpc.Collect? {
      assert WorkerOk(s.ctl, s.workers[i]);
    }
  }

  lemma {:induction false} StepKeepsResting(c: Control, count: nat, w: Worker)
    requires ControlOk(c) && Resting(c, w) && !c.cpc.Collect? && !c.cpc.ClearStart? && !c.cpc.SetEnd?
    requires WorkerStep(c, count, w).Some?
    ensures Resting(c, WorkerStep(c, count, w).value)
  {
  }

  lemma {:induction false} StepServes(c: Control, count: nat, w: Worker)
    requires ControlOk(c) && c.cpc.Collect? && WorkerStep(c, count, w).Some?
    requires Pending(c, w) || Served(c, w)
    ensures var w' := WorkerStep(c, count, w).value; Pending(c, w') || Served(c, w')
  {
  }

  lemma {:induction false} StepKeepsWorkerOk(c: Control, count: nat, w: Worker)
    requires ControlOk(c) && WorkerOk(c, w) && WorkerStep(c, count, w).Some?
    ensures WorkerOk(c, WorkerStep(c, count, w).value)
  {
    match c.cpc
    case Collect => StepServes(c, count, w);
    case ClearStart =>
    case SetEnd =>
    case _ => StepKeepsResting(c, count, w);
  }

  // A worker's step changes neither an increment already made nor, except at the
  // write, the number of increments.
  lemma StepAndIncrements(c: Control, count: nat, w: Worker)
    requires ControlOk(c) && c.cpc.Collect? && WorkerOk(c, w) && WorkerStep(c, count, w).Some?
    ensures var w' := WorkerStep(c, count, w).value;
            Incremented(w', |c.past| + 1) <==> Incremented(w, |c.past| + 1) || w.pc.IncWrite?
    ensures w.pc.IncWrite? ==> !Incremented(w, |c.past| + 1)
    ensures var w' := WorkerStep(c, count, w).value;
            (w'.pc.IncWrite? <==> w.pc.IncRead?) && (w.pc.IncRead? ==> w'.read == count)
  {
  }

  lemma WorkKeepsInv(s: State, i: nat)
    requires Inv(s) && Fire(s, Work(i)).Some?
    ensures Inv(Fire(s, Work(i)).value)
  {
    StepKeepsWorkerOk(s.ctl, s.count, s.workers[i]);
    WorkKeepsCount(s, i);
  }

  lemma {:induction false} WorkKeepsCount(s: State, i: nat)
    requires Inv(s) && Fire(s, Work(i)).Some?
    ensures CountOk(Fire(s, Work(i)).value)
  {
    if s.ctl.cpc.Collect? {
      WorkEffect(s, i);
    } else {
      assert WorkerOk(s.ctl, s.workers[i]);
    }
  }

  // What one step of a worker does to the increments and to the values read.
  lemma {:induction false} WorkEffect(s: State, i: nat)
    requires Inv(s) && s.ctl.cpc.Collect? && Fire(s, Work(i)).Some?
    ensures var t, w := Fire(s, Work(i)).value, s.workers[i];
            && Completed(t) == Completed(s) + (if w.pc.IncWrite? then 1 else 0)
            && t.count == (if w.pc.IncWrite? then w.read + 1 else s.count)
            && (t.workers[i].pc.IncWrite? <==> w.pc.IncRead?)
            && (w.pc.IncRead? ==> t.workers[i].read == s.count)
  {
    var w := s.workers[i];
    var w' := WorkerStep(s.ctl, s.count, w).value;
    assert WorkerOk(s.ctl, w);
    StepAndIncrements(s.ctl, s.count, w);
    IncrementsUpdate(s.workers, i, w', |s.ctl.past| + 1);
  }

  lemma RaiseKeepsInv(s: State, i: nat)
    requires Inv(s) && Fire(s, Raise(i)).Some?
    ensures Inv(Fire(s, Raise(i)).value)
  {
    assert WorkerOk(s.ctl, s.workers[i]);
    RaiseKeepsCount(s, i);
  }

  lemma {:induction false} RaiseKeepsCount(s: State, i: nat)
    requires Inv(s) && Fire(s, Raise(i)).Some?
    ensures CountOk(Fire(s, Raise(i)).value)
  {
    assert WorkerOk(s.ctl, s.workers[i]);
    IncrementsUpdate(s.workers, i, s.workers[i].(pc := Raised), |s.ctl.past| + 1);
  }

  lemma FireKeepsInv(s: State, a: Action)
    requires Inv(s) && Fire(s, a).Some?
    ensures Inv(Fire(s, a).value)
  {
    match a
    case Issue(cmd) => IssueKeepsInv(s, cmd);
    case Coord => CoordKeepsInv(s);
    case Work(i) => WorkKeepsInv(s, i);
    case Raise(i) => RaiseKeepsInv(s, i);
  }

  lemma {:induction false} RunKeepsInv(s: State, run: seq<Action>)
    requires Inv(s) && Exec(s, run).Some?
    ensures Inv(Exec(s, run).value)
    decreases |run|
  {
    if run != [] {
      FireKeepsInv(s, run[0]);
      RunKeepsInv(Fire(s, run[0]).value, run[1..]);
    }
  }

  lemma ReachableInv(s: State)
    requires Reachable(s)
    ensures Inv(s)
  {
    var boards: nat :| Reaches(Init(boards), s);
    var run :| Exec(Init(boards), run) == Some(s);
    RunKeepsInv(Init(boards), run);
  }

  // ------------------------------------------------------------------ theorems

  // The coordinator leaves a round only after every worker has stored a response
  // in it: when it does, each worker has served exactly the commands issued so
  // far, once each, in order, in each command's own mode and with its own text.
  lemma RoundLeftOnlyWhenServed(s: State)
    requires Reachable(s) && s.ctl.cpc.Collect? && CoordStep(s).Some?
    ensures forall i | 0 <= i < |s.workers| :: s.workers[i].log == Tasks(s.ctl.past + [s.ctl.cmd])
  {
    ReachableInv(s);
    IncrementsBound(s.workers, |s.ctl.past| + 1);
    TasksAppend(s.ctl.past, s.ctl.cmd);
    forall i | 0 <= i < |s.workers| ensures s.workers[i].log == Tasks(s.ctl.past + [s.ctl.cmd]) {
      assert Incremented(s.workers[i], |s.ctl.past| + 1) && WorkerOk(s.ctl, s.workers[i]);
    }
  }

  // In every reachable state a worker has one response for each round left, and
  // at most one more, for the round now open.  No round is served twice.
  lemma EachRoundServedOnce(s: State, i: nat)
    requires Reachable(s) && i < |s.workers|
    ensures s.workers[i].log == Tasks(s.ctl.past)
            || (s.workers[i].log == Tasks(s.ctl.past + [s.ctl.cmd])
                && (s.ctl.cpc.Collect? || s.ctl.cpc.ClearStart? || s.ctl.cpc.SetEnd?))
    ensures s.ctl.cpc.Idle? ==> s.workers[i].log == Tasks(s.ctl.past)
  {
    ReachableInv(s);
    TasksAppend(s.ctl.past, s.ctl.cmd);
    assert WorkerOk(s.ctl, s.workers[i]);
  }

  // While the coordinator changes the message, the count or the mode, no worker is
  // between passing start_flag.wait() and finishing its increment.
  lemma NoWorkerInTaskDuringReset(s: State, i: nat)
    requires Reachable(s) && i < |s.workers|
    requires s.ctl.cpc.SetMsg? || s.ctl.cpc.ResetCount? || s.ctl.cpc.SetMode?
    ensures !s.workers[i].InTask()
  {
    ReachableInv(s);
    assert WorkerOk(s.ctl, s.workers[i]);
  }

  // While a round is open the count never exceeds the completed increments of this
  // round, so no increment of an earlier round is counted in it.
  lemma CountNeverAhead(s: State)
    requires Reachable(s) && s.ctl.cpc.Collect?
    ensures s.count <= Completed(s)
  {
    ReachableInv(s);
  }

  // The first command whose round is ever left went out over UDP: a worker that
  // serves TCP first raises on the unbound name before it increments.
  lemma FirstRoundIsUdp(s: State)
    requires Reachable(s) && s.workers != [] && s.ctl.past != []
    ensures s.ctl.past[0].udp
  {
    ReachableInv(s);
    var w := s.workers[0];
    assert WorkerOk(s.ctl, w);
    assert w.log[0] == TaskOf(s.ctl.past[0]);
  }

  // ------------------------------------------------------------------------- exit

  predicate PastOk(c: Control) { forall k | 0 <= k < |c.past| :: c.past[k].msg != "exit" }

  lemma {:induction false} FireKeepsPast(s: State, a: Action)
    requires ControlOk(s.ctl) && PastOk(s.ctl) && Fire(s, a).Some?
    ensures PastOk(Fire(s, a).value.ctl)
  {
  }

  lemma {:induction false} RunKeepsPast(s: State, run: seq<Action>)
    requires Inv(s) && PastOk(s.ctl) && Exec(s, run).Some?
    ensures PastOk(Exec(s, run).value.ctl)
    decreases |run|
  {
    if run != [] {
      FireKeepsPast(s, run[0]);
      FireKeepsInv(s, run[0]);
      RunKeepsPast(Fire(s, run[0]).value, run[1..]);
    }
  }

  // The text "exit" and no other sets the exit flag, and no round is left for it:
  // every other command opens a round and never sets the flag.
  lemma ExitOnlyByName(s: State)
    requires Reachable(s)
    ensures s.ctl.exit ==> s.ctl.cmd.msg == "exit"
    ensures s.ctl.cpc.Collect? || s.ctl.cpc.ClearEnd? ==> s.ctl.cmd.msg != "exit"
    ensures forall k | 0 <= k < |s.ctl.past| :: s.ctl.past[k].msg != "exit"
  {
    ReachableInv(s);
    var boards: nat :| Reaches(Init(boards), s);
    var run :| Exec(Init(boards), run) == Some(s);
    RunKeepsPast(Init(boards), run);
  }

  // Three or four steps after a command has been issued the coordinator has cleared
  // end_flag for it, or, for the text "exit", set the exit flag.
  lemma {:induction false} CommandTaken(s: State, cmd: Command)
    requires s.ctl.cpc.Idle? && Inv(s)
    ensures var steps := if cmd.udp then [Issue(cmd), Coord, Coord, Coord] else [Issue(cmd), Coord, Coord, Coord, Coord];
            && Exec(s, steps).Some?
            && var t := Exec(s, steps).value;
               if cmd.msg == "exit" then t.ctl.exit && t.ctl.cpc.SetStartExit?
               else !t.ctl.exit && !t.ctl.end && t.ctl.cpc.SetStart?
  {
    if cmd.udp {
      assert [Issue(cmd), Coord, Coord, Coord][1..] == [Coord, Coord, Coord];
    } else {
      assert [Issue(cmd), Coord, Coord, Coord, Coord][1..] == [Coord, Coord, Coord, Coord];
      assert [Coord, Coord, Coord, Coord][1..] == [Coord, Coord, Coord];
    }
    assert [Coord, Coord, Coord][1..] == [Coord, Coord] && [Coord, Coord][1..] == [Coord] && [Coord][1..] == [];
  }
}
