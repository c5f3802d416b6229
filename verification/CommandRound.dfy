// The command round: one coordinator (Server.send_msg_to_all_boards_*) and one
// thread per board (wait_to_send_msgs), sharing three events and three globals.
//
// The protocol is a labelled transition system.  A program point stands for the
// next shared-memory access or blocking call of the thread; `thread_tasks_done += 1`
// is a read and a separate write.
module CommandRound {
  import opened Options

  // What the operator typed, and over which transport it goes out.
  datatype Command = Command(udp: bool, msg: string) {
    predicate IsExit() { msg == "exit" }
  }

  // One served command as seen by a worker: the mode in which the reply was
  // received and the text the worker itself transmitted (none over UDP, where the
  // coordinator broadcasts).
  datatype Task = Task(udp: bool, sent: Option<string>)

  datatype WorkerPc =
    | OuterCheck     // while not exit_flag.is_set()
    | Accept         // sock.accept()
    | InnerCheck     // while not exit_flag.is_set()
    | StartCall      // about to call start_flag.wait()
    | StartBlocked   // registered as a waiter of start_flag
    | StartWoken     // notified by start_flag.set(), not yet running
    | ExitCheck      // if exit_flag.is_set(): return
    | ReadMode       // if not using_udp
    | Send           // connection.sendall(str_to_send)
    | Receive        // recv / recvfrom, then store the response
    | IncRead        // read of thread_tasks_done
    | IncWrite       // write of the incremented value
    | EndCall        // about to call end_flag.wait()
    | EndBlocked     // registered as a waiter of end_flag
    | EndWoken       // notified by end_flag.set(), not yet running
    | Returned
    | Raised         // left by an exception, connection closed

  // `log` is a history variable: every response this worker has stored.
  // `serverBound` says whether the local name `server` has ever been assigned.
  datatype Worker = Worker(
    pc: WorkerPc, read: nat, sent: Option<string>, serverBound: bool, log: seq<Task>)
  {
    predicate Finished() { pc.Returned? || pc.Raised? }

    // Between passing start_flag.wait() and finishing the increment.
    predicate InTask() {
      pc.StartWoken? || pc.ExitCheck? || pc.ReadMode? || pc.Send? || pc.Receive? || pc.IncRead? || pc.IncWrite?
    }

    predicate AtSocketCall() { pc.Accept? || pc.Send? || pc.Receive? }
  }

  datatype CoordPc =
    | Idle
    | SetMsg         // str_to_send = msg (TCP only)
    | ResetCount     // thread_tasks_done = 0
    | SetMode        // using_udp = ...
    | SetExit        // exit_flag.set()
    | SetStartExit   // start_flag.set() on the exit path
    | Join           // join every thread
    | Exited
    | ClearEnd       // end_flag.clear()
    | SetStart       // start_flag.set()
    | Collect        // while thread_tasks_done != len(boards)
    | ClearStart     // start_flag.clear()
    | SetEnd         // end_flag.set()

  // The coordinator and everything only the coordinator writes.  `past` is a
  // history variable: the commands whose round the coordinator has left.
  datatype Control = Control(
    cpc: CoordPc, cmd: Command,
    start: bool, end: bool, exit: bool,
    usingUdp: bool, strToSend: string,
    past: seq<Command>)

  datatype State = State(ctl: Control, count: nat, workers: seq<Worker>)

  // Issue: the operator types a command.  Coord: the coordinator runs one step.
  // Work(i): worker i runs one step (an empty reply in the receive loop is a
  // stutter and has no action).  Raise(i): a socket call of worker i fails.
  datatype Action = Issue(cmd: Command) | Coord | Work(i: nat) | Raise(i: nat)

  function Init(boards: nat): State {
    State(Control(Idle, Command(false, ""), false, false, false, false, "", []), 0,
          seq(boards, _ => Worker(OuterCheck, 0, None, false, [])))
  }

  // Event.set() notifies every registered waiter; a notified waiter returns from
  // wait() even if the flag is cleared before it runs.
  function WakeStart(ws: seq<Worker>): (r: seq<Worker>)
    ensures |r| == |ws|
    ensures forall i | 0 <= i < |ws| :: r[i] == if ws[i].pc.StartBlocked? then ws[i].(pc := StartWoken) else ws[i]
  {
    if ws == [] then [] else [if ws[0].pc.StartBlocked? then ws[0].(pc := StartWoken) else ws[0]] + WakeStart(ws[1..])
  }

  function WakeEnd(ws: seq<Worker>): (r: seq<Worker>)
    ensures |r| == |ws|
    ensures forall i | 0 <= i < |ws| :: r[i] == if ws[i].pc.EndBlocked? then ws[i].(pc := EndWoken) else ws[i]
  {
    if ws == [] then [] else [if ws[0].pc.EndBlocked? then ws[0].(pc := EndWoken) else ws[0]] + WakeEnd(ws[1..])
  }

  // One step of the coordinator; None while it has to wait.
  function CoordStep(s: State): Option<State> {
    var c := s.ctl;
    match c.cpc
    case Idle => None
    case SetMsg => Some(s.(ctl := c.(strToSend := c.cmd.msg, cpc := ResetCount)))
    case ResetCount => Some(s.(ctl := c.(cpc := SetMode), count := 0))
    case SetMode =>
      Some(s.(ctl := c.(usingUdp := c.cmd.udp, cpc := if c.cmd.IsExit() then SetExit else ClearEnd)))
    case SetExit => Some(s.(ctl := c.(exit := true, cpc := SetStartExit)))
    case SetStartExit => Some(s.(ctl := c.(start := true, cpc := Join), workers := WakeStart(s.workers)))
    case Join => if forall w | w in s.workers :: w.Finished() then Some(s.(ctl := c.(cpc := Exited))) else None
    case Exited => None
    case ClearEnd => Some(s.(ctl := c.(end := false, cpc := SetStart)))
    case SetStart => Some(s.(ctl := c.(start := true, cpc := Collect), workers := WakeStart(s.workers)))
    case Collect => if s.count == |s.workers| then Some(s.(ctl := c.(cpc := ClearStart))) else None
    case ClearStart => Some(s.(ctl := c.(start := false, cpc := SetEnd)))
    case SetEnd =>
      Some(s.(ctl := c.(end := true, cpc := Idle, past := c.past + [c.cmd]), workers := WakeEnd(s.workers)))
  }

  // One step of a worker's own state; None while it has to wait.
  function WorkerStep(c: Control, count: nat, w: Worker): Option<Worker> {
    match w.pc
    case OuterCheck => Some(w.(pc := if c.exit then Returned else Accept))
    case Accept => Some(w.(pc := InnerCheck))
    case InnerCheck => Some(w.(pc := if c.exit then OuterCheck else StartCall))
    case StartCall => Some(w.(pc := if c.start then ExitCheck else StartBlocked))
    case StartBlocked => None
    case StartWoken => Some(w.(pc := ExitCheck))
    case ExitCheck => Some(w.(pc := if c.exit then Returned else ReadMode))
    case ReadMode => Some(w.(pc := if c.usingUdp then Receive else Send, sent := None))
    case Send => Some(w.(pc := Receive, sent := Some(c.strToSend)))
    case Receive =>
      // recvfrom binds `server`; after recv the name may never have been bound,
      // and storing it then raises.
      Some(w.(log := w.log + [Task(c.usingUdp, w.sent)], serverBound := w.serverBound || c.usingUdp,
              pc := if w.serverBound || c.usingUdp then IncRead else Raised))
    case IncRead => Some(w.(pc := IncWrite, read := count))
    case IncWrite => Some(w.(pc := EndCall))
    case EndCall => Some(w.(pc := if c.end then InnerCheck else EndBlocked))
    case EndBlocked => None
    case EndWoken => Some(w.(pc := InnerCheck))
    case Returned => None
    case Raised => None
  }

  function Fire(s: State, a: Action): Option<State> {
    match a
    case Issue(cmd) =>
      if !s.ctl.cpc.Idle? then None
      else Some(s.(ctl := s.ctl.(cmd := cmd, cpc := if cmd.udp then ResetCount else SetMsg)))
    case Coord => CoordStep(s)
    case Work(i) =>
      if i >= |s.workers| then None
      else
        var w := s.workers[i];
        (match WorkerStep(s.ctl, s.count, w)
         case None => None
         case Some(w') =>
           Some(s.(workers := s.workers[i := w'], count := if w.pc.IncWrite? then w.read + 1 else s.count)))
    case Raise(i) =>
      if i >= |s.workers| || !s.workers[i].AtSocketCall() then None
      else Some(s.(workers := s.workers[i := s.workers[i].(pc := Raised)]))
  }

  // The state after a run, or None when some action of it is not enabled.
  function Exec(s: State, run: seq<Action>): Option<State>
    decreases |run|
  {
    if run == [] then Some(s)
    else match Fire(s, run[0])
      case None => None
      case Some(s') => Exec(s', run[1..])
  }

  ghost predicate Reaches(s: State, t: State) {
    exists run :: Exec(s, run) == Some(t)
  }

  ghost predicate Reachable(s: State) {
    exists boards: nat :: Reaches(Init(boards), s)
  }

  // What serving a command has to look like: in the command's own mode, and over
  // TCP with the command's own text.
  function TaskOf(c: Command): Task {
    Task(c.udp, if c.udp then None else Some(c.msg))
  }

  function Tasks(cs: seq<Command>): (r: seq<Task>)
    ensures |r| == |cs|
    ensures forall i | 0 <= i < |cs| :: r[i] == TaskOf(cs[i])
  {
    if cs == [] then [] else Tasks(cs[..|cs| - 1]) + [TaskOf(cs[|cs| - 1])]
  }
}
