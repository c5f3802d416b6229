// What a user's actions at the terminal come to, from the keys they send.
module LineEditorKeys {
  import opened Options
  import opened CommandHistory
  import opened Text
  import opened LineEditor

  // Ignored2 and Ignored3 are escape sequences that mean nothing to the editor.
  datatype Action =
    | Char(c: char)
    | Backspace
    | Delete
    | Up
    | Down
    | Ignored2(c: char)
    | Ignored3(c: char)
  {
    predicate Proper() {
      match this
      case Char(c) => c != '\r' && c != '\n' && c != 0x1B as char && c != 0x08 as char && c != 0x7F as char
      case Ignored2(c) => c != '['
      case Ignored3(c) => c != 'A' && c != 'B'
      case _ => true
    }

    // The keys a terminal sends.
    function Keys(): (k: seq<char>)
      ensures 1 <= |k| <= 3
    {
      match this
      case Char(c) => [c]
      case Backspace => [0x08 as char]
      case Delete => [0x7F as char]
      case Up => [0x1B as char, '[', 'A']
      case Down => [0x1B as char, '[', 'B']
      case Ignored2(c) => [0x1B as char, c]
      case Ignored3(c) => [0x1B as char, '[', c]
    }

    // What the action does to the line and to what the user looks at.
    function Acted(e: Edit): Edit {
      match this
      case Char(c) => Edit(e.line + [c], e.hist)
      case Backspace => Edit(Shortened(e.line), e.hist)
      case Delete => Edit(Shortened(e.line), e.hist)
      case Up => Edit(Viewed(e.hist.Up()), e.hist.Up())
      case Down => Edit(Viewed(e.hist.Down()), e.hist.Down())
      case _ => e
    }
  }

  predicate AllProper(acts: seq<Action>) { forall i | 0 <= i < |acts| :: acts[i].Proper() }

  function Shortened(line: string): string { if line == [] then [] else line[..|line| - 1] }

  // The entry in view, counted from the newest, and the empty line when there is none.
  function Viewed(h: Hist): string {
    match h.view
    case Past => ""
    case At(age) => if age < |h.Entries()| then h.Entries()[|h.Entries()| - 1 - age] else ""
  }

  function KeysOf(acts: seq<Action>): seq<char> { if acts == [] then [] else acts[0].Keys() + KeysOf(acts[1..]) }

  // How a stream goes on after the actions: with Enter, with the beginning of an
  // escape sequence, or not at all.
  predicate Entered(tail: seq<char>) { tail != [] && (tail[0] == '\r' || tail[0] == '\n') }

  predicate Partial(tail: seq<char>) { tail == [0x1B as char] || tail == [0x1B as char, '['] }

  predicate ProperTail(tail: seq<char>) { tail == [] || Partial(tail) || Entered(tail) }

  // Entering a line stores it up to its first NUL, unless it is empty.
  function Stored(e: Edit): Edit {
    if |e.line| == 0 then e else Edit(e.line, e.hist.Push(CString(e.line)))
  }

  // The outcome of the actions.
  function Performed(e: Edit, acts: seq<Action>, tail: seq<char>, limit: nat): Outcome
    decreases |acts|
  {
    if acts == [] && tail == [] then Waiting(e)
    else if |e.line| >= limit then TooLong(e)
    else if acts != [] then Performed(acts[0].Acted(e), acts[1..], tail, limit)
    else if Entered(tail) then Done(Stored(e))
    else Waiting(e)
  }

  // One of the actions brings up a command of the given size or more.
  predicate BringsUp(e: Edit, acts: seq<Action>, limit: nat, size: nat)
    decreases |acts|
  {
    acts != [] && |e.line| < limit &&
    var e' := acts[0].Acted(e);
    ((acts[0].Up? || acts[0].Down?) && |e'.line| >= size) || BringsUp(e', acts[1..], limit, size)
  }

  // ------------------------------------------------------------ streams of actions

  function EventOf(a: Action): Event {
    match a
    case Char(c) => Type(c)
    case Backspace => Rub
    case Delete => Rub
    case Up => Older
    case Down => Newer
    case _ => Ignored
  }

  lemma {:induction false} EventOfAction(a: Action, rest: seq<char>)
    requires a.Proper()
    ensures NextEvent(a.Keys() + rest) == Some((EventOf(a), |a.Keys()|))
  {
    var keys := a.Keys() + rest;
    assert keys[0] == a.Keys()[0];
    match a
    case Up => assert keys[1] == '[' && keys[2] == 'A';
    case Down => assert keys[1] == '[' && keys[2] == 'B';
    case Ignored2(c) => assert keys[1] == c;
    case Ignored3(c) => assert keys[1] == '[' && keys[2] == c;
    case _ =>
  }

  lemma {:induction false} ShownIsViewed(h: Hist)
    ensures Shown(h) == Viewed(h)
  {
  }

  lemma {:induction false} ActionApplied(a: Action, e: Edit)
    ensures Apply(e, EventOf(a)) == a.Acted(e) && (IsRecall(EventOf(a)) <==> a.Up? || a.Down?)
  {
    match a
    case Up => ShownIsViewed(e.hist.Up());
    case Down => ShownIsViewed(e.hist.Down());
    case _ =>
  }

  lemma {:induction false} RunOneAction(a: Action, rest: seq<char>, e: Edit, limit: nat, size: nat)
    requires a.Proper() && |e.line| < limit
    ensures Run(e, a.Keys() + rest, limit) == Run(a.Acted(e), rest, limit)
    ensures Overruns(e, a.Keys() + rest, limit, size)
            <==> ((a.Up? || a.Down?) && |a.Acted(e).line| >= size) || Overruns(a.Acted(e), rest, limit, size)
  {
    EventOfAction(a, rest);
    ActionApplied(a, e);
    assert (a.Keys() + rest)[|a.Keys()|..] == rest;
  }

  lemma {:induction false} RunTail(e: Edit, tail: seq<char>, limit: nat, size: nat)
    requires ProperTail(tail)
    ensures Run(e, tail, limit) == Performed(e, [], tail, limit) && !Overruns(e, tail, limit, size)
  {
  }

  lemma {:induction false} KeysStep(acts: seq<Action>, tail: seq<char>)
    requires acts != []
    ensures KeysOf(acts) + tail == acts[0].Keys() + (KeysOf(acts[1..]) + tail) && KeysOf(acts) != []
  {
  }

  lemma {:induction false} RunAtLimit(e: Edit, keys: seq<char>, limit: nat, size: nat)
    requires keys != [] && |e.line| >= limit
    ensures Run(e, keys, limit) == TooLong(e) && !Overruns(e, keys, limit, size)
  {
  }

  lemma {:induction false} PerformedStep(e: Edit, acts: seq<Action>, tail: seq<char>, limit: nat, size: nat)
    requires acts != []
    ensures Performed(e, acts, tail, limit)
            == if |e.line| >= limit then TooLong(e) else Performed(acts[0].Acted(e), acts[1..], tail, limit)
    ensures BringsUp(e, acts, limit, size)
            <==> |e.line| < limit
                 && (((acts[0].Up? || acts[0].Down?) && |acts[0].Acted(e).line| >= size)
                     || BringsUp(acts[0].Acted(e), acts[1..], limit, size))
  {
  }

  // The keys of any actions do what the actions say, whatever comes before, up to
  // Enter, to the limit, or to the end of the keys; and a recalled command is too
  // long for the buffer exactly when one of the actions brings up such a command.
  lemma {:induction false} RunOfActions(e: Edit, acts: seq<Action>, tail: seq<char>, limit: nat, size: nat)
    requires AllProper(acts) && ProperTail(tail)
    ensures Run(e, KeysOf(acts) + tail, limit) == Performed(e, acts, tail, limit)
    ensures Overruns(e, KeysOf(acts) + tail, limit, size) <==> BringsUp(e, acts, limit, size)
    decreases |acts|
  {
    if acts == [] {
      assert KeysOf(acts) + tail == tail;
      RunTail(e, tail, limit, size);
    } else {
      KeysStep(acts, tail);
      PerformedStep(e, acts, tail, limit, size);
      if |e.line| >= limit {
        RunAtLimit(e, KeysOf(acts) + tail, limit, size);
      } else {
        RunOneAction(acts[0], KeysOf(acts[1..]) + tail, e, limit, size);
        RunOfActions(acts[0].Acted(e), acts[1..], tail, limit, size);
      }
    }
  }

  // Every stream of keys is made of actions and such a tail.
  lemma {:induction false} KeysAreActions(keys: seq<char>) returns (acts: seq<Action>, tail: seq<char>)
    ensures AllProper(acts) && ProperTail(tail) && keys == KeysOf(acts) + tail
    decreases |keys|
  {
    if ProperTail(keys) {
      acts, tail := [], keys;
    } else {
      var a := FirstAction(keys);
      var more;
      more, tail := KeysAreActions(keys[|a.Keys()|..]);
      acts := [a] + more;
      assert acts[1..] == more;
      assert keys == a.Keys() + keys[|a.Keys()|..];
    }
  }

  lemma {:induction false} FirstAction(keys: seq<char>) returns (a: Action)
    requires !ProperTail(keys)
    ensures a.Proper() && |a.Keys()| <= |keys| && keys[..|a.Keys()|] == a.Keys()
  {
    if keys[0] != 0x1B as char {
      a := if keys[0] == 0x08 as char then Backspace else if keys[0] == 0x7F as char then Delete else Char(keys[0]);
    } else if keys[1] != '[' {
      assert |keys| >= 2;
      a := Ignored2(keys[1]);
    } else {
      assert keys[..2] == [0x1B as char, '['];
      a := if keys[2] == 'A' then Up else if keys[2] == 'B' then Down else Ignored3(keys[2]);
    }
  }

  // -------------------------------------------------------- walking through a history

  predicate Shorter(h: Hist, limit: nat) {
    limit > 0 && forall i | 0 <= i < |h.Entries()| :: |h.Entries()[i]| < limit
  }

  function Times(a: Action, k: nat): (s: seq<Action>)
    ensures |s| == k && forall i | 0 <= i < k :: s[i] == a
  {
    if k == 0 then [] else [a] + Times(a, k - 1)
  }

  lemma {:induction false} ViewedShort(h: Hist, limit: nat)
    requires Shorter(h, limit)
    ensures |Viewed(h)| < limit
  {
  }

  // The actions one after the other, the limit aside.
  function Edited(e: Edit, acts: seq<Action>): Edit
    decreases |acts|
  {
    if acts == [] then e else Edited(acts[0].Acted(e), acts[1..])
  }

  predicate OnlyRecalls(acts: seq<Action>) { forall i | 0 <= i < |acts| :: acts[i].Up? || acts[i].Down? }

  lemma {:induction false} MovesKeepShorter(h: Hist, limit: nat)
    requires h.Ok() && Shorter(h, limit)
    ensures h.Up().Ok() && h.Down().Ok() && Shorter(h.Up(), limit) && Shorter(h.Down(), limit)
  {
    MovesKeepOk(h);
    assert h.Up().Entries() == h.Entries() == h.Down().Entries();
  }

  // Arrow keys and Enter, where every entry is short enough for the line.
  lemma {:induction false} RecallsPerformed(e: Edit, acts: seq<Action>, limit: nat)
    requires e.hist.Ok() && Shorter(e.hist, limit) && |e.line| < limit && OnlyRecalls(acts)
    ensures Performed(e, acts, ['\r'], limit) == Done(Stored(Edited(e, acts)))
    decreases |acts|
  {
    if acts != [] {
      PerformedStep(e, acts, ['\r'], limit, 0);
      RecallKeepsShort(e, acts[0], limit);
      RecallsPerformed(acts[0].Acted(e), acts[1..], limit);
    } else {
      EnterPerformed(e, limit);
    }
  }

  lemma {:induction false} EnterPerformed(e: Edit, limit: nat)
    requires |e.line| < limit
    ensures Performed(e, [], ['\r'], limit) == Done(Stored(e))
  {
  }

  lemma {:induction false} RecallKeepsShort(e: Edit, a: Action, limit: nat)
    requires e.hist.Ok() && Shorter(e.hist, limit) && (a.Up? || a.Down?)
    ensures var e' := a.Acted(e); e'.hist.Ok() && Shorter(e'.hist, limit) && |e'.line| < limit
  {
    MovesKeepShorter(e.hist, limit);
    ViewedShort(a.Acted(e).hist, limit);
  }

  lemma {:induction false} RecallsReturn(h: Hist, acts: seq<Action>, limit: nat)
    requires h.Ok() && Shorter(h, limit) && OnlyRecalls(acts)
    ensures var o := Run(Edit("", h), KeysOf(acts) + ['\r'], limit);
            o.Done? && o.e.line == Edited(Edit("", h), acts).line
  {
    RecallsPerformed(Edit("", h), acts, limit);
    RunOfActions(Edit("", h), acts, ['\r'], limit, 0);
  }

  lemma {:induction false} UpsShift(h: Hist, k: nat)
    ensures Ups(h.Up(), k) == Ups(h, k + 1)
  {
    if k > 0 { UpsShift(h, k - 1); }
  }

  // Some up-arrows and then other actions.
  lemma {:induction false} EditedUps(e: Edit, k: nat, acts: seq<Action>)
    ensures Edited(e, Times(Up, k) + acts)
            == Edited(if k == 0 then e else Edit(Viewed(Ups(e.hist, k)), Ups(e.hist, k)), acts)
    decreases k
  {
    var all := Times(Up, k) + acts;
    if k == 0 {
      assert all == acts;
    } else {
      assert all[0] == Up && all[1..] == Times(Up, k - 1) + acts;
      assert Ups(e.hist, 0) == e.hist;
      UpsShift(e.hist, k - 1);
      EditedUps(Up.Acted(e), k - 1, acts);
    }
  }

  lemma {:induction false} ModInRange(x: int, n: nat)
    requires n > 0
    ensures 0 <= x % n < n
  {
  }

  lemma {:induction false} ReachedAfterUps(h: Hist, c: string, k: nat) returns (reached: nat)
    requires h.Ok() && c !in h.Entries() && k > 0
    ensures h.Push(c).Entries() != [] && reached < |h.Push(c).Entries()|
    ensures reached == (k - 1) % |h.Push(c).Entries()|
    ensures Ups(h.Push(c), k) == h.Push(c).(view := At(reached))
  {
    PushIsBoundedFifo(h, c);
    KthUp(h, c, k);
    ModInRange(k - 1, |h.Push(c).Entries()|);
    reached := (k - 1) % |h.Push(c).Entries()|;
  }

  // What is in view at an age, and after one down-arrow more.
  lemma {:induction false} ViewedAt(h: Hist, age: nat)
    requires age < |h.Entries()|
    ensures var h', entries := h.(view := At(age)), h.Entries();
            && Viewed(h') == entries[|entries| - 1 - age]
            && Viewed(h'.Down()) == entries[|entries| - 1 - if age > 0 then age - 1 else |entries| - 1]
  {
    var h' := h.(view := At(age));
    assert h'.Entries() == h.Entries() == h'.Down().Entries();
  }

  // After storing a command, k up-arrows and Enter return the k-th newest entry,
  // cyclically.
  lemma {:induction false} UpsReturn(h: Hist, c: string, k: nat, limit: nat) returns (reached: nat)
    requires h.Ok() && c !in h.Entries() && k > 0 && Shorter(h.Push(c), limit)
    ensures h.Push(c).Entries() != [] && reached == (k - 1) % |h.Push(c).Entries()| < |h.Push(c).Entries()|
    ensures var entries := h.Push(c).Entries();
            var o := Run(Edit("", h.Push(c)), KeysOf(Times(Up, k)) + ['\r'], limit);
            o.Done? && o.e.line == entries[|entries| - 1 - reached]
  {
    PushIsBoundedFifo(h, c);
    reached := ReachedAfterUps(h, c, k);
    UpsTo(h.Push(c), k, reached, limit);
  }

  // Where k up-arrows reach an entry, Enter returns it, and a down-arrow more the one
  // before it.
  lemma {:induction false} UpsTo(h: Hist, k: nat, reached: nat, limit: nat)
    requires h.Ok() && Shorter(h, limit) && k > 0 && reached < |h.Entries()| && Ups(h, k) == h.(view := At(reached))
    ensures var entries, o := h.Entries(), Run(Edit("", h), KeysOf(Times(Up, k)) + ['\r'], limit);
            o.Done? && o.e.line == entries[|entries| - 1 - reached]
    ensures var entries, o := h.Entries(), Run(Edit("", h), KeysOf(Times(Up, k) + [Down]) + ['\r'], limit);
            o.Done? && o.e.line == entries[|entries| - 1 - if reached > 0 then reached - 1 else |entries| - 1]
  {
    ViewedAt(h, reached);
    UpsLine(h, k, limit);
  }

  lemma {:induction false} UpsLine(h: Hist, k: nat, limit: nat)
    requires h.Ok() && Shorter(h, limit) && k > 0
    ensures var o := Run(Edit("", h), KeysOf(Times(Up, k)) + ['\r'], limit); o.Done? && o.e.line == Viewed(Ups(h, k))
    ensures var o := Run(Edit("", h), KeysOf(Times(Up, k) + [Down]) + ['\r'], limit);
            o.Done? && o.e.line == Viewed(Ups(h, k).Down())
  {
    RecallsReturn(h, Times(Up, k), limit);
    RecallsReturn(h, Times(Up, k) + [Down], limit);
    EditedUps(Edit("", h), k, []);
    EditedUps(Edit("", h), k, [Down]);
    EditedDown(Edit(Viewed(Ups(h, k)), Ups(h, k)));
    assert Times(Up, k) + [] == Times(Up, k);
  }

  lemma {:induction false} EditedDown(e: Edit)
    ensures Edited(e, [Down]) == Edit(Viewed(e.hist.Down()), e.hist.Down())
  {
    assert [Down][1..] == [];
  }

  // k up-arrows, one down-arrow and Enter return the entry before the one the
  // up-arrows reach, and from the newest one the oldest.
  lemma {:induction false} UpsThenDown(h: Hist, c: string, k: nat, limit: nat) returns (reached: nat)
    requires h.Ok() && c !in h.Entries() && k > 0 && Shorter(h.Push(c), limit)
    ensures h.Push(c).Entries() != [] && reached == (k - 1) % |h.Push(c).Entries()| < |h.Push(c).Entries()|
    ensures var entries := h.Push(c).Entries();
            var o := Run(Edit("", h.Push(c)), KeysOf(Times(Up, k) + [Down]) + ['\r'], limit);
            o.Done? && o.e.line == entries[|entries| - 1 - if reached > 0 then reached - 1 else |entries| - 1]
  {
    PushIsBoundedFifo(h, c);
    reached := ReachedAfterUps(h, c, k);
    UpsTo(h.Push(c), k, reached, limit);
  }

  // The first down-arrow after storing a command returns the oldest entry; once the
  // array has wrapped the second oldest, unless the command filled the last slot.
  lemma {:induction false} DownReturns(h: Hist, c: string, limit: nat)
    requires h.Ok() && c !in h.Entries() && Shorter(h.Push(c), limit)
    ensures var h' := h.Push(c);
            var o := Run(Edit("", h'), [0x1B as char, '[', 'B', '\r'], limit);
            o.Done? && o.e.line == h'.Entries()[if |h'.log| <= 15 || |h'.log| % 15 == 0 then 0 else 1]
  {
    LineAfterDown(h, c);
    assert KeysOf([Down]) + ['\r'] == [0x1B as char, '[', 'B', '\r'] by { assert [Down][1..] == []; }
    RecallsReturn(h.Push(c), [Down], limit);
  }

  lemma {:induction false} LineAfterDown(h: Hist, c: string)
    requires h.Ok() && c !in h.Entries()
    ensures var h' := h.Push(c);
            && h'.Ok() && (|h'.log| <= 15 ==> |h'.Entries()| >= 1) && (|h'.log| > 15 ==> |h'.Entries()| == 15)
            && Edited(Edit("", h'), [Down]).line == h'.Entries()[if |h'.log| <= 15 || |h'.log| % 15 == 0 then 0 else 1]
  {
    var h' := h.Push(c);
    PushIsBoundedFifo(h, c);
    DownAfterPush(h, c);
    EditedDown(Edit("", h'));
    DownKeepsLog(h');
    ViewedAt(h', h'.Down().view.age);
  }

  lemma {:induction false} DownKeepsLog(h: Hist)
    requires h.Down().view.At?
    ensures h.Down() == h.(view := h.Down().view)
  {
  }
}
