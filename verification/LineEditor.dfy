// The terminal's line editor: GetCmd on top of the command history.
module LineEditor {
  import opened Options
  import opened CommandHistory
  import opened Text

  const ESC: char := 0x1B as char
  const DEL: char := 0x7F as char
  const BACKSPACE: char := 0x08 as char

  // --------------------------------------------------------------- the editor fold

  datatype Event = Enter | Type(c: char) | Rub | Older | Newer | Ignored

  // The event at the front of a key stream and the number of keys it takes; None
  // while the keys so far are the beginning of an escape sequence.
  function NextEvent(keys: seq<char>): (r: Option<(Event, nat)>)
    requires keys != []
    ensures r.Some? ==> 0 < r.value.1 <= |keys|
  {
    if keys[0] == '\r' || keys[0] == '\n' then Some((Enter, 1))
    else if keys[0] == ESC then
      if |keys| < 2 then None
      else if keys[1] != '[' then Some((Ignored, 2))
      else if |keys| < 3 then None
      else Some((if keys[2] == 'A' then Older else if keys[2] == 'B' then Newer else Ignored, 3))
    else if keys[0] == BACKSPACE || keys[0] == DEL then Some((Rub, 1))
    else Some((Type(keys[0]), 1))
  }

  datatype Edit = Edit(line: string, hist: Hist)

  function Shown(h: Hist): string {
    if h.view.At? && h.view.age < |h.Entries()| then h.Entry(h.view.age) else ""
  }

  function Apply(e: Edit, ev: Event): Edit {
    match ev
    case Type(c) => e.(line := e.line + [c])
    case Rub => if e.line == [] then e else e.(line := e.line[..|e.line| - 1])
    case Older => Edit(Shown(e.hist.Up()), e.hist.Up())
    case Newer => Edit(Shown(e.hist.Down()), e.hist.Down())
    case _ => e
  }

  // A finished line goes to the history, an empty one does not.
  function Finish(e: Edit): Edit {
    if e.line == [] then e else e.(hist := e.hist.Push(CString(e.line)))
  }

  // Done: Enter was pressed.  TooLong: a key arrived while the line was at the limit.
  // Waiting: the keys ran out.
  datatype Outcome = Done(e: Edit) | TooLong(e: Edit) | Waiting(e: Edit)

  function Run(e: Edit, keys: seq<char>, limit: nat): Outcome
    decreases |keys|
  {
    if keys == [] then Waiting(e)
    else if |e.line| >= limit then TooLong(e)
    else
      var next := NextEvent(keys);
      if next.None? then Waiting(e)
      else if next.value.0.Enter? then Done(Finish(e))
      else Run(Apply(e, next.value.0), keys[next.value.1..], limit)
  }

  predicate IsRecall(ev: Event) { ev.Older? || ev.Newer? }

  // The commands that the arrow keys of a call bring into the line, in order.
  function Recalled(e: Edit, keys: seq<char>, limit: nat): seq<string>
    decreases |keys|
  {
    if keys == [] || |e.line| >= limit then []
    else
      var next := NextEvent(keys);
      if next.None? || next.value.0.Enter? then []
      else
        var e' := Apply(e, next.value.0);
        (if IsRecall(next.value.0) then [e'.line] else []) + Recalled(e', keys[next.value.1..], limit)
  }

  // Some recall of the fold shows a command as long as the buffer or longer, so that
  // its terminator does not fit any more.
  predicate Overruns(e: Edit, keys: seq<char>, limit: nat, size: nat)
    decreases |keys|
  {
    if keys == [] || |e.line| >= limit then false
    else
      var next := NextEvent(keys);
      if next.None? || next.value.0.Enter? then false
      else
        var e' := Apply(e, next.value.0);
        (IsRecall(next.value.0) && |e'.line| >= size) || Overruns(e', keys[next.value.1..], limit, size)
  }

  ghost predicate AnyAsLong(lines: seq<string>, size: nat) {
    exists i :: 0 <= i < |lines| && |lines[i]| >= size
  }

  lemma {:induction false} AnyAsLongAppend(line: string, lines: seq<string>, size: nat)
    ensures AnyAsLong([line] + lines, size) <==> |line| >= size || AnyAsLong(lines, size)
  {
    var all := [line] + lines;
    assert all[0] == line && forall i | 0 <= i < |lines| :: all[i + 1] == lines[i];
    if i :| 0 <= i < |lines| && |lines[i]| >= size { assert |all[i + 1]| >= size; }
  }

  // In other words: some recalled command is that long.
  lemma {:induction false} OverrunsIff(e: Edit, keys: seq<char>, limit: nat, size: nat)
    ensures Overruns(e, keys, limit, size)
            <==> exists i :: 0 <= i < |Recalled(e, keys, limit)| && |Recalled(e, keys, limit)[i]| >= size
    decreases |keys|
  {
    RecalledIff(e, keys, limit, size);
  }

  lemma {:induction false} RecalledIff(e: Edit, keys: seq<char>, limit: nat, size: nat)
    ensures Overruns(e, keys, limit, size) <==> AnyAsLong(Recalled(e, keys, limit), size)
    decreases |keys|
  {
    if keys != [] && |e.line| < limit && NextEvent(keys).Some? && !NextEvent(keys).value.0.Enter? {
      var (ev, n) := NextEvent(keys).value;
      var e' := Apply(e, ev);
      RecalledIff(e', keys[n..], limit, size);
      AnyAsLongAppend(e'.line, Recalled(e', keys[n..], limit), size);
      assert [] + Recalled(e', keys[n..], limit) == Recalled(e', keys[n..], limit);
    }
  }

  // ---------------------------------------------------------------------- GetCmd

  // The line length lives in an int8_t, and is compared with the unsigned buffer
  // length: after the 127th character it is negative and exceeds any buffer.
  function Int8(n: nat): int
    requires n < 256
  {
    if n < 128 then n else n - 256
  }

  function AsUnsigned(i: int): nat
    requires -0x8000_0000 <= i
  {
    if i < 0 then i + 0x1_0000_0000 else i
  }

  function Limit(uiBufLen: nat): nat { if uiBufLen < 128 then uiBufLen else 128 }

  // Stored commands are C strings of at most 127 characters.
  ghost predicate Recallable(h: Hist) {
    forall i | 0 <= i < |h.Entries()| :: |h.Entries()[i]| < 128 && Without(h.Entries()[i], '\0')
  }

  lemma CStringShape(s: string)
    ensures |CString(s)| <= |s| && Without(CString(s), '\0')
    ensures Without(s, '\0') ==> CString(s) == s
  {
  }

  lemma {:induction false} PushRecallable(h: Hist, line: string)
    requires h.Ok() && Recallable(h) && |line| < 128
    ensures Recallable(h.Push(CString(line)))
  {
    CStringShape(line);
    PushIsBoundedFifo(h, CString(line));
    var c, e, e' := CString(line), h.Entries(), h.Push(CString(line)).Entries();
    if c !in e {
      forall i | 0 <= i < |e'| ensures |e'[i]| < 128 && Without(e'[i], '\0') {
        if i < |e'| - 1 { assert e'[i] == e[i + |e| + 1 - |e'|]; } else { assert e'[i] == c; }
      }
    }
  }

  // Overrun: a recalled command does not fit into the buffer, and copying it would
  // write past the end.
  datatype Result = Length(n: nat) | Failed | Blocked | Overrun

  // How a call ends, given where the fold ends.
  ghost predicate Ends(o: Outcome, r: Result, pcBuffer: array<char>, h: Hist)
    reads pcBuffer
  {
    && h == o.e.hist
    && match o
       case Done(e) => r == Length(|e.line|) && |e.line| < pcBuffer.Length
                       && pcBuffer[..|e.line|] == e.line && pcBuffer[|e.line|] == '\0'
       case TooLong(_) => r == Failed
       case Waiting(_) => r == Blocked
  }

  // The history and the buffer hold the edited line.
  ghost predicate Editing(ch: History, pcBuffer: array<char>, uiBufLen: nat, iLen: int, e: Edit)
    reads ch, ch.uHistory, pcBuffer
  {
    && ch.Valid() && Recallable(ch.h) && ch.h == e.hist
    && uiBufLen <= pcBuffer.Length
    && |e.line| <= 128 && |e.line| <= pcBuffer.Length && iLen == Int8(|e.line|) && pcBuffer[..|e.line|] == e.line
  }

  // Reads keys until Enter; Blocked stands for a read that finds no key.  The call
  // stays inside its buffer if and only if no command that the fold recalls is as
  // long as the buffer or longer, and then it ends as the fold does.
  method GetCmd(ch: History, pcBuffer: array<char>, uiBufLen: nat, keys: seq<char>) returns (r: Result)
    requires ch.Valid() && Recallable(ch.h)
    requires uiBufLen <= pcBuffer.Length && uiBufLen < 0x8000_0000
    modifies ch, ch.uHistory, pcBuffer
    ensures ch.Valid() && Recallable(ch.h)
    ensures r.Overrun? <==> Overruns(Edit("", old(ch.h)), keys, Limit(uiBufLen), pcBuffer.Length)
    ensures !r.Overrun? ==> Ends(Run(Edit("", old(ch.h)), keys, Limit(uiBufLen)), r, pcBuffer, ch.h)
  {
    var stop, iLen;
    ghost var e;
    stop, iLen, e := EditKeys(ch, pcBuffer, uiBufLen, keys);
    match stop {
      case NoKey => r := Blocked;
      case LimitHit => r := Failed;
      case PastEnd => r := Overrun;
      case EnterKey => r := FinishLine(ch, pcBuffer, uiBufLen, iLen, e);
    }
  }

  // How the loop over the keys ends.
  datatype Stop = NoKey | LimitHit | EnterKey | PastEnd

  function Stopped(stop: Stop, e: Edit): Outcome
    requires !stop.PastEnd?
  {
    match stop
    case NoKey => Waiting(e)
    case LimitHit => TooLong(e)
    case EnterKey => Done(Finish(e))
  }

  // The loop has ended: with the outcome of the fold, or at a command that is too long.
  ghost predicate Left(stop: Stop, ch: History, pcBuffer: array<char>, uiBufLen: nat, iLen: int, e: Edit)
    reads ch, ch.uHistory, pcBuffer
  {
    && ch.Valid() && Recallable(ch.h)
    && (!stop.PastEnd? ==> Editing(ch, pcBuffer, uiBufLen, iLen, e))
    && (stop.EnterKey? ==> |e.line| < Limit(uiBufLen))
  }

  predicate LeftAsFolded(stop: Stop, e: Edit, e0: Edit, keys: seq<char>, limit: nat, size: nat) {
    && (stop.PastEnd? <==> Overruns(e0, keys, limit, size))
    && (!stop.PastEnd? ==> Run(e0, keys, limit) == Stopped(stop, e))
  }

  // The rest of the fold decides as the whole does.
  predicate Continues(e0: Edit, keys0: seq<char>, e: Edit, keys: seq<char>, limit: nat, size: nat) {
    && Run(e0, keys0, limit) == Run(e, keys, limit)
    && (Overruns(e0, keys0, limit, size) <==> Overruns(e, keys, limit, size))
  }

  method EditKeys(ch: History, pcBuffer: array<char>, uiBufLen: nat, keys: seq<char>)
    returns (stop: Stop, iLen: int, ghost e: Edit)
    requires ch.Valid() && Recallable(ch.h)
    requires uiBufLen <= pcBuffer.Length && uiBufLen < 0x8000_0000
    modifies ch`iCurrent, ch`h, pcBuffer
    ensures Left(stop, ch, pcBuffer, uiBufLen, iLen, e)
    ensures LeftAsFolded(stop, e, Edit("", old(ch.h)), keys, Limit(uiBufLen), pcBuffer.Length)
  {
    ghost var limit := Limit(uiBufLen);
    ghost var e0 := Edit("", ch.h);
    e := e0;
    iLen := 0;
    var pos := 0;
    assert keys[0..] == keys;
    while true
      invariant pos <= |keys| && Editing(ch, pcBuffer, uiBufLen, iLen, e)
      invariant Continues(e0, keys, e, keys[pos..], limit, pcBuffer.Length)
      decreases |keys| - pos
    {
      var s;
      s, iLen, pos, e := EditKey(ch, pcBuffer, uiBufLen, keys, pos, iLen, e);
      if s.Some? {
        return s.value, iLen, e;
      }
    }
  }

  // One turn of the loop.
  method EditKey(ch: History, pcBuffer: array<char>, uiBufLen: nat, keys: seq<char>, pos0: nat, iLen0: int, ghost e0: Edit)
    returns (stop: Option<Stop>, iLen: int, pos: nat, ghost e: Edit)
    requires pos0 <= |keys| && Editing(ch, pcBuffer, uiBufLen, iLen0, e0) && uiBufLen < 0x8000_0000
    modifies ch`iCurrent, ch`h, pcBuffer
    ensures stop.Some? ==>
              && Left(stop.value, ch, pcBuffer, uiBufLen, iLen, e)
              && LeftAsFolded(stop.value, e, e0, keys[pos0..], Limit(uiBufLen), pcBuffer.Length)
    ensures stop.None? ==>
              && pos0 < pos <= |keys| && Editing(ch, pcBuffer, uiBufLen, iLen, e)
              && Continues(e0, keys[pos0..], e, keys[pos..], Limit(uiBufLen), pcBuffer.Length)
  {
    stop, iLen, pos, e := None, iLen0, pos0, e0;
    RunEnds(e, keys, pos, Limit(uiBufLen), pcBuffer.Length);
    if pos == |keys| {
      return Some(NoKey), iLen, pos, e;
    }
    var uChar := keys[pos];
    LimitReached(|e.line|, uiBufLen);
    if AsUnsigned(iLen) >= uiBufLen {
      return Some(LimitHit), iLen, pos, e;
    }
    if uChar == '\r' || uChar == '\n' {
      return Some(EnterKey), iLen, pos, e;
    }
    RunStep(e, keys, pos, Limit(uiBufLen), pcBuffer.Length);
    ghost var ev := NextEvent(keys[pos..]);
    stop, iLen, pos := HandleKey(ch, pcBuffer, uiBufLen, keys, pos, iLen, e);
    if stop.None? {
      e := Apply(e, ev.value.0);
    }
  }

  // The comparison of the signed length with the buffer's length finds the limit.
  lemma LimitReached(n: nat, uiBufLen: nat)
    requires n <= 128 && uiBufLen < 0x8000_0000
    ensures AsUnsigned(Int8(n)) >= uiBufLen <==> n >= Limit(uiBufLen)
    ensures Int8(n) == (n + 128) % 256 - 128 && Limit(uiBufLen) <= 128
    ensures Limit(uiBufLen) < 128 ==> Limit(uiBufLen) == uiBufLen
  {
  }

  lemma {:induction false} RunEnds(e: Edit, keys: seq<char>, pos: nat, limit: nat, size: nat)
    requires pos <= |keys|
    ensures pos == |keys| ==> LeftAsFolded(NoKey, e, e, keys[pos..], limit, size)
    ensures pos < |keys| && |e.line| >= limit ==> LeftAsFolded(LimitHit, e, e, keys[pos..], limit, size)
    ensures pos < |keys| && |e.line| < limit && (keys[pos] == '\r' || keys[pos] == '\n') ==>
              LeftAsFolded(EnterKey, e, e, keys[pos..], limit, size)
  {
  }

  lemma {:induction false} RunStep(e: Edit, keys: seq<char>, pos: nat, limit: nat, size: nat)
    requires pos < |keys| && |e.line| < limit && keys[pos] != '\r' && keys[pos] != '\n'
    ensures var ev := NextEvent(keys[pos..]);
            if ev.None? then LeftAsFolded(NoKey, e, e, keys[pos..], limit, size)
            else if IsRecall(ev.value.0) && |Apply(e, ev.value.0).line| >= size then Overruns(e, keys[pos..], limit, size)
            else Continues(e, keys[pos..], Apply(e, ev.value.0), keys[pos + ev.value.1..], limit, size)
  {
    var ev := NextEvent(keys[pos..]);
    if ev.Some? {
      assert keys[pos..][ev.value.1..] == keys[pos + ev.value.1..];
    }
  }

  // Enter: the line is terminated and, unless empty, goes to the history.
  method FinishLine(ch: History, pcBuffer: array<char>, uiBufLen: nat, iLen: int, ghost e: Edit) returns (r: Result)
    requires Editing(ch, pcBuffer, uiBufLen, iLen, e) && |e.line| < Limit(uiBufLen)
    modifies ch, ch.uHistory, pcBuffer
    ensures ch.Valid() && Recallable(ch.h)
    ensures Ends(Done(Finish(e)), r, pcBuffer, ch.h)
  {
    pcBuffer[iLen] := '\0';
    if iLen > 0 {
      PushRecallable(ch.h, e.line);
      ch.PushCommand(CString(pcBuffer[..iLen]));
    }
    return Length(iLen);
  }

  // What handling the event at the front of the keys comes to.
  ghost predicate Handled(stop: Option<Stop>, ch: History, pcBuffer: array<char>, uiBufLen: nat, iLen: int, e: Edit, ev: Event)
    reads ch, ch.uHistory, pcBuffer
  {
    && ch.Valid() && Recallable(ch.h)
    && (stop == None || stop == Some(PastEnd))
    && (stop.Some? <==> IsRecall(ev) && |Apply(e, ev).line| >= pcBuffer.Length)
    && (stop.None? ==> Editing(ch, pcBuffer, uiBufLen, iLen, Apply(e, ev)))
  }

  // One key, or one escape sequence, other than Enter.
  method HandleKey(ch: History, pcBuffer: array<char>, uiBufLen: nat, keys: seq<char>, pos0: nat, iLen0: int, ghost e: Edit)
    returns (stop: Option<Stop>, iLen: int, pos: nat)
    requires Editing(ch, pcBuffer, uiBufLen, iLen0, e) && |e.line| < Limit(uiBufLen)
    requires pos0 < |keys| && keys[pos0] != '\r' && keys[pos0] != '\n'
    modifies ch`iCurrent, ch`h, pcBuffer
    ensures var ev := NextEvent(keys[pos0..]);
            && (ev.None? ==> stop == Some(NoKey) && Editing(ch, pcBuffer, uiBufLen, iLen, e))
            && (ev.Some? ==> pos == pos0 + ev.value.1 && Handled(stop, ch, pcBuffer, uiBufLen, iLen, e, ev.value.0))
  {
    stop, iLen, pos := None, iLen0, pos0;
    var uChar := keys[pos];
    if uChar == ESC {
      stop, iLen, pos := HandleEscape(ch, pcBuffer, uiBufLen, keys, pos, iLen, e);
    } else if uChar == BACKSPACE || uChar == DEL {
      iLen := HandleRub(ch, pcBuffer, uiBufLen, iLen, e);
      pos := pos + 1;
    } else {
      iLen := HandleType(ch, pcBuffer, uiBufLen, uChar, iLen, e);
      pos := pos + 1;
    }
  }

  method HandleEscape(ch: History, pcBuffer: array<char>, uiBufLen: nat, keys: seq<char>, pos: nat, iLen0: int, ghost e: Edit)
    returns (stop: Option<Stop>, iLen: int, next: nat)
    requires Editing(ch, pcBuffer, uiBufLen, iLen0, e) && |e.line| < Limit(uiBufLen)
    requires pos < |keys| && keys[pos] == ESC
    modifies ch`iCurrent, ch`h, pcBuffer
    ensures var ev := NextEvent(keys[pos..]);
            && (ev.None? ==> stop == Some(NoKey) && Editing(ch, pcBuffer, uiBufLen, iLen, e))
            && (ev.Some? ==> next == pos + ev.value.1 && Handled(stop, ch, pcBuffer, uiBufLen, iLen, e, ev.value.0))
  {
    stop, iLen, next := None, iLen0, pos;
    if pos + 1 == |keys| {
      return Some(NoKey), iLen, pos;
    }
    if keys[pos + 1] != '[' {
      return None, iLen, pos + 2;
    }
    if pos + 2 == |keys| {
      return Some(NoKey), iLen, pos;
    }
    if keys[pos + 2] == 'A' {
      stop, iLen := HandleRecall(ch, pcBuffer, uiBufLen, -1, iLen, e);
    } else if keys[pos + 2] == 'B' {
      stop, iLen := HandleRecall(ch, pcBuffer, uiBufLen, 1, iLen, e);
    }
    next := pos + 3;
  }

  function ArrowEvent(increment: int): Event { if increment == -1 then Older else Newer }

  function Arrow(h: Hist, increment: int): Hist { if increment == -1 then h.Up() else h.Down() }

  // Up or down arrow: the recalled command replaces the line, nothing clears it.  A
  // command that does not fit is not copied.
  method HandleRecall(ch: History, pcBuffer: array<char>, uiBufLen: nat, increment: int, iLen0: int, ghost e: Edit)
    returns (stop: Option<Stop>, iLen: int)
    requires ch.Valid() && Recallable(ch.h) && ch.h == e.hist && 0 < uiBufLen <= pcBuffer.Length
    requires increment == -1 || increment == 1
    modifies ch`iCurrent, ch`h, pcBuffer
    ensures Handled(stop, ch, pcBuffer, uiBufLen, iLen, e, ArrowEvent(increment))
  {
    var fits;
    ApplyArrow(e, increment);
    fits, iLen := RecallInto(ch, pcBuffer, increment, iLen0);
    stop := if fits then None else Some(PastEnd);
    assert Apply(e, ArrowEvent(increment)) == Edit(Shown(ch.h), ch.h);
    assert fits ==> Int8(iLen) == iLen;
  }

  lemma {:induction false} ApplyArrow(e: Edit, increment: int)
    requires increment == -1 || increment == 1
    ensures IsRecall(ArrowEvent(increment))
    ensures Apply(e, ArrowEvent(increment)) == Edit(Shown(Arrow(e.hist, increment)), Arrow(e.hist, increment))
  {
  }

  method RecallInto(ch: History, pcBuffer: array<char>, increment: int, iLen0: int) returns (fits: bool, iLen: int)
    requires ch.Valid() && Recallable(ch.h) && pcBuffer.Length > 0
    requires increment == -1 || increment == 1
    modifies ch`iCurrent, ch`h, pcBuffer
    ensures ch.Valid() && Recallable(ch.h)
    ensures ch.h == Arrow(old(ch.h), increment)
    ensures fits <==> |Shown(ch.h)| < pcBuffer.Length
    ensures fits ==> iLen == |Shown(ch.h)| < 128 && pcBuffer[..iLen] == Shown(ch.h)
  {
    var uReturnedString := Recall(ch, increment);
    if uReturnedString.Some? && |uReturnedString.value| >= pcBuffer.Length {
      return false, iLen0;
    }
    fits := true;
    iLen := CopyRecalled(uReturnedString, pcBuffer);
  }

  method HandleRub(ch: History, pcBuffer: array<char>, uiBufLen: nat, iLen0: int, ghost e: Edit) returns (iLen: int)
    requires Editing(ch, pcBuffer, uiBufLen, iLen0, e) && |e.line| < Limit(uiBufLen)
    modifies pcBuffer
    ensures Editing(ch, pcBuffer, uiBufLen, iLen, Apply(e, Rub))
  {
    iLen := iLen0;
    if iLen != 0 {
      pcBuffer[iLen] := '\0';
      iLen := iLen - 1;
    }
  }

  method HandleType(ch: History, pcBuffer: array<char>, uiBufLen: nat, uChar: char, iLen0: int, ghost e: Edit)
    returns (iLen: int)
    requires Editing(ch, pcBuffer, uiBufLen, iLen0, e) && |e.line| < Limit(uiBufLen)
    modifies pcBuffer
    ensures Editing(ch, pcBuffer, uiBufLen, iLen, Apply(e, Type(uChar)))
  {
    pcBuffer[iLen0] := uChar;
    iLen := if iLen0 == 127 then -128 else iLen0 + 1;
  }

  lemma {:induction false} ShownShort(h: Hist)
    requires h.Ok() && Recallable(h)
    ensures |Shown(h)| < 128
    ensures h.Shown() == if h.view.At? then Some(Shown(h)) else None
  {
  }

  lemma {:induction false} MovesKeepRecallable(h: Hist)
    requires h.Ok() && Recallable(h)
    ensures Recallable(h.Up()) && Recallable(h.Down())
  {
    MovesKeepOk(h);
    assert h.Up().Entries() == h.Entries() == h.Down().Entries();
  }

  method Recall(ch: History, increment: int) returns (r: Option<string>)
    requires ch.Valid() && Recallable(ch.h)
    requires increment == -1 || increment == 1
    modifies ch`iCurrent, ch`h
    ensures ch.Valid() && Recallable(ch.h)
    ensures ch.h == Arrow(old(ch.h), increment)
    ensures Shown(ch.h) == (if r.Some? then r.value else "") && |Shown(ch.h)| < 128
  {
    MovesKeepRecallable(ch.h);
    r := ch.RetCommand(increment);
    ShownShort(ch.h);
  }

  // The command, or an empty line for a NULL pointer.
  method CopyRecalled(uReturnedString: Option<string>, pcBuffer: array<char>) returns (size: nat)
    requires pcBuffer.Length > if uReturnedString.Some? then |uReturnedString.value| else 0
    modifies pcBuffer
    ensures var s := if uReturnedString.Some? then uReturnedString.value else "";
            size == |s| && pcBuffer[..size] == s && pcBuffer[size] == '\0'
  {
    size := 0;
    if uReturnedString.Some? {
      size := |uReturnedString.value|;
      Copy(uReturnedString.value, pcBuffer);
    } else {
      pcBuffer[0] := '\0';
    }
  }

  // The command and its terminator go to the start of the buffer.
  method Copy(s: string, pcBuffer: array<char>)
    requires |s| < pcBuffer.Length
    modifies pcBuffer
    ensures pcBuffer[..|s|] == s && pcBuffer[|s|] == '\0'
  {
    var i := 0;
    while i < |s|
      invariant 0 <= i <= |s| && pcBuffer[..i] == s[..i]
    {
      pcBuffer[i] := s[i];
      i := i + 1;
    }
    pcBuffer[|s|] := '\0';
  }

  // ------------------------------------------------------- what the fold guarantees

  predicate PlainKeys(s: string) {
    forall i | 0 <= i < |s| ::
      s[i] != '\r' && s[i] != '\n' && s[i] != ESC && s[i] != BACKSPACE && s[i] != DEL && s[i] != '\0'
  }

  // A line typed without editing is accepted if and only if it stays below the limit,
  // and is then the line that was typed.
  lemma {:induction false} TypedLine(e: Edit, text: string, more: seq<char>, limit: nat)
    requires PlainKeys(text) && |e.line| <= limit
    ensures Run(e, text + ['\r'] + more, limit)
            == if |e.line| + |text| < limit then Done(Finish(e.(line := e.line + text)))
               else TooLong(e.(line := e.line + text[..limit - |e.line|]))
    decreases |text|
  {
    var keys := text + ['\r'] + more;
    if text == [] {
      assert keys[0] == '\r' && e.line + text == e.line && e.line + text[..0] == e.line;
    } else if |e.line| < limit {
      var e' := e.(line := e.line + [text[0]]);
      assert keys[0] == text[0] && keys[1..] == text[1..] + ['\r'] + more;
      assert NextEvent(keys) == Some((Type(text[0]), 1));
      TypedLine(e', text[1..], more, limit);
      LineGrows(e.line, text, limit);
    } else {
      assert e.line + text[..0] == e.line;
    }
  }

  lemma {:induction false} LineGrows(line: string, text: string, limit: nat)
    requires text != [] && |line| < limit
    ensures line + [text[0]] + text[1..] == line + text
    ensures |line| + |text| >= limit ==>
              line + [text[0]] + text[1..][..limit - |line| - 1] == line + text[..limit - |line|]
  {
    if |line| + |text| >= limit {
      var k := limit - |line|;
      assert text[..k] == [text[0]] + text[1..][..k - 1];
    }
  }

  // A backspace undoes the character before it, unless that one filled the line.
  lemma {:induction false} RubUndoesType(e: Edit, c: char, keys: seq<char>, limit: nat)
    requires PlainKeys([c]) && |e.line| < limit
    ensures Run(e, [c, BACKSPACE] + keys, limit)
            == if |e.line| + 1 < limit then Run(e, keys, limit) else TooLong(e.(line := e.line + [c]))
  {
    var all := [c, BACKSPACE] + keys;
    var e' := e.(line := e.line + [c]);
    assert [c][0] == c;
    assert NextEvent(all) == Some((Type(c), 1)) && all[1..] == [BACKSPACE] + keys;
    assert NextEvent([BACKSPACE] + keys) == Some((Rub, 1)) && ([BACKSPACE] + keys)[1..] == keys;
    assert e'.line[..|e.line|] == e.line;
    assert Run(e, all, limit) == Run(e', [BACKSPACE] + keys, limit);
  }

  // Recalling the newest command and pressing Enter returns it and stores nothing.
  lemma {:induction false} RepeatLast(h: Hist, limit: nat)
    requires h.Ok() && Recallable(h) && h.Entries() != [] && h.Up().view == At(0)
    requires |h.Entry(0)| < limit
    ensures var o := Run(Edit("", h), [ESC, '[', 'A', '\r'], limit);
            o.Done? && o.e.line == h.Entry(0) && o.e.hist.log == h.log
  {
    var keys := [ESC, '[', 'A', '\r'];
    assert NextEvent(keys) == Some((Older, 3)) && keys[3..] == ['\r'];
    var e := Apply(Edit("", h), Older);
    UpToNewest(h);
    assert Run(Edit("", h), keys, limit) == Run(e, ['\r'], limit);
    EnterStored(e, limit);
  }

  lemma {:induction false} UpToNewest(h: Hist)
    requires h.Ok() && h.Entries() != [] && h.Up().view == At(0)
    ensures Apply(Edit("", h), Older) == Edit(h.Entry(0), h.Up()) && h.Up().log == h.log
    ensures h.Entry(0) in h.Up().Entries()
  {
    assert h.Up().Entries() == h.Entries();
  }

  lemma {:induction false} EnterStored(e: Edit, limit: nat)
    requires |e.line| < limit && Without(e.line, '\0') && e.line in e.hist.Entries()
    ensures Run(e, ['\r'], limit) == Done(e)
  {
    CStringShape(e.line);
    assert NextEvent(['\r']) == Some((Enter, 1));
  }

  // ------------------------------------------------------- staying inside the buffer

  // A stream without escape sequences recalls nothing and fits any buffer.
  lemma {:induction false} NoEscapeNoOverrun(e: Edit, keys: seq<char>, limit: nat, size: nat)
    requires forall i | 0 <= i < |keys| :: keys[i] != ESC
    ensures Recalled(e, keys, limit) == [] && !Overruns(e, keys, limit, size)
    decreases |keys|
  {
    if keys != [] && |e.line| < limit {
      var (ev, n) := NextEvent(keys).value;
      if !ev.Enter? { NoEscapeNoOverrun(Apply(e, ev), keys[n..], limit, size); }
    }
  }

  // What the arrow keys bring up is never as long as 128 characters.
  lemma {:induction false} RecalledShort(e: Edit, keys: seq<char>, limit: nat, size: nat)
    requires e.hist.Ok() && Recallable(e.hist) && size >= 128
    ensures !Overruns(e, keys, limit, size)
    decreases |keys|
  {
    if keys != [] && |e.line| < limit && NextEvent(keys).Some? && !NextEvent(keys).value.0.Enter? {
      var (ev, n) := NextEvent(keys).value;
      ApplyKeepsRecallable(e, ev);
      RecalledShort(Apply(e, ev), keys[n..], limit, size);
    }
  }

  lemma {:induction false} ApplyKeepsRecallable(e: Edit, ev: Event)
    requires e.hist.Ok() && Recallable(e.hist)
    ensures Apply(e, ev).hist.Ok() && Recallable(Apply(e, ev).hist)
    ensures IsRecall(ev) ==> |Apply(e, ev).line| < 128
  {
    MovesKeepOk(e.hist);
    MovesKeepRecallable(e.hist);
    ShownShort(Apply(e, ev).hist);
  }

  // An up-arrow to a command as long as the buffer writes past its end.
  lemma {:induction false} UpOverruns(h: Hist, limit: nat, size: nat)
    requires h.Ok() && h.Entries() != [] && h.Up().view == At(0) && limit > 0
    ensures Overruns(Edit("", h), [ESC, '[', 'A'], limit, size) <==> |h.Entry(0)| >= size
  {
    var keys := [ESC, '[', 'A'];
    assert NextEvent(keys) == Some((Older, 3)) && keys[3..] == [];
    UpToNewest(h);
  }

  // ----------------------------------------------------------------- many calls

  // One call: the buffer's real size, the length it is said to have, and the keys.
  datatype Call = Call(size: nat, uiBufLen: nat, keys: seq<char>) {
    predicate Sound() { uiBufLen <= size && uiBufLen < 0x8000_0000 }

    function Fold(h: Hist): Outcome { Run(Edit("", h), keys, Limit(uiBufLen)) }

    predicate LeavesBuffer(h: Hist) { Overruns(Edit("", h), keys, Limit(uiBufLen), size) }
  }

  // What the caller gets to see of an outcome.
  datatype Reply = Line(text: string) | TooLongLine | NoReply

  function ReplyOf(o: Outcome): Reply {
    match o
    case Done(e) => Line(e.line)
    case TooLong(_) => TooLongLine
    case Waiting(_) => NoReply
  }

  // One call of GetCmd on a buffer of its own.
  method Answer(ch: History, c: Call) returns (overrun: bool, reply: Reply)
    requires ch.Valid() && Recallable(ch.h) && c.Sound()
    modifies ch, ch.uHistory
    ensures ch.Valid() && Recallable(ch.h)
    ensures overrun <==> c.LeavesBuffer(old(ch.h))
    ensures !overrun ==> reply == ReplyOf(c.Fold(old(ch.h))) && ch.h == c.Fold(old(ch.h)).e.hist
  {
    var pcBuffer := new char[c.size];
    var r := GetCmd(ch, pcBuffer, c.uiBufLen, c.keys);
    overrun := r.Overrun?;
    reply := match r
      case Length(n) => Line(if n <= pcBuffer.Length then pcBuffer[..n] else "")
      case Failed => TooLongLine
      case _ => NoReply;
  }

  // The replies of the fold to a sequence of calls that start on history h, each on
  // the history that the one before it left, up to the first call, if there is one,
  // that writes past its buffer.
  function SessionReplies(h: Hist, calls: seq<Call>): (r: seq<Reply>)
    ensures |r| <= |calls|
    decreases |calls|
  {
    if calls == [] || calls[0].LeavesBuffer(h) then []
    else [ReplyOf(calls[0].Fold(h))] + SessionReplies(calls[0].Fold(h).e.hist, calls[1..])
  }

  // A whole session on one history.
  method Session(ch: History, calls: seq<Call>) returns (replies: seq<Reply>)
    requires forall i | 0 <= i < |calls| :: calls[i].Sound()
    requires ch.Valid() && Recallable(ch.h)
    modifies ch, ch.uHistory
    ensures replies == SessionReplies(old(ch.h), calls)
    decreases |calls|
  {
    if calls == [] {
      return [];
    }
    var overrun, reply := Answer(ch, calls[0]);
    if overrun {
      return [];
    }
    var rest := Session(ch, calls[1..]);
    replies := [reply] + rest;
  }

  lemma {:induction false} RunKeepsRecallable(e: Edit, keys: seq<char>, limit: nat)
    requires e.hist.Ok() && Recallable(e.hist) && limit <= 128
    ensures Run(e, keys, limit).e.hist.Ok() && Recallable(Run(e, keys, limit).e.hist)
    decreases |keys|
  {
    if keys != [] && |e.line| < limit && NextEvent(keys).Some? {
      var (ev, n) := NextEvent(keys).value;
      if ev.Enter? {
        PushRecallable(e.hist, e.line);
        PushIsBoundedFifo(e.hist, CString(e.line));
      } else {
        ApplyKeepsRecallable(e, ev);
        RunKeepsRecallable(Apply(e, ev), keys[n..], limit);
      }
    }
  }

  // Whatever the calls do, none with a buffer of 128 characters or more writes past
  // it: a session of such calls is answered to its end.
  lemma {:induction false} LongBuffersNeverOverrun(h: Hist, calls: seq<Call>)
    requires h.Ok() && Recallable(h) && forall i | 0 <= i < |calls| :: calls[i].size >= 128
    ensures |SessionReplies(h, calls)| == |calls|
    decreases |calls|
  {
    if calls != [] {
      var c := calls[0];
      RecalledShort(Edit("", h), c.keys, Limit(c.uiBufLen), c.size);
      RunKeepsRecallable(Edit("", h), c.keys, Limit(c.uiBufLen));
      LongBuffersNeverOverrun(c.Fold(h).e.hist, calls[1..]);
    }
  }

  // The radio menu: its buffer has two characters, and the command that leads to it
  // is in the history.  An up-arrow there copies ten characters into two.
  lemma {:induction false} MenuOverrun(prompt: Call, menu: Call)
    requires prompt == Call(256, 256, "radiotool\r") && menu == Call(2, 2, [ESC, '[', 'A'])
    ensures SessionReplies(EMPTY, [prompt, menu]) == [Line("radiotool")]
    ensures menu.LeavesBuffer(prompt.Fold(EMPTY).e.hist)
  {
    NoEscapeNoOverrun(Edit("", EMPTY), prompt.keys, 128, 256);
    PromptStores(prompt);
    var h := EMPTY.Push("radiotool");
    PushIsBoundedFifo(EMPTY, "radiotool");
    assert h.Entries() == ["radiotool"];
    UpOverruns(h, 2, 2);
    assert [prompt, menu][1..] == [menu];
    assert SessionReplies(h, [menu]) == [];
  }

  lemma {:induction false} PromptStores(prompt: Call)
    requires prompt == Call(256, 256, "radiotool\r")
    ensures prompt.Fold(EMPTY) == Done(Edit("radiotool", EMPTY.Push("radiotool")))
  {
    var typed := "radiotool";
    assert typed + ['\r'] + [] == prompt.keys;
    TypedLine(Edit("", EMPTY), typed, [], 128);
    assert "" + typed == typed;
    CStringShape(typed);
  }
}
