// The terminal's command history: pushCommand and retCommand on the app_CH fields.
module CommandHistory {

  import opened Arithmetic
  import opened Options
  import opened RingLog

  const CMD_HISTORY_LEN: nat := 15

  // ------------------------------------------------------------ the abstract history

  // What the user is looking at: a stored command by its age, 0 being the newest, or
  // the position past the newest one.
  datatype View = Past | At(age: nat)

  // Every command ever stored, oldest first, of which the last fifteen can be
  // recalled.
  datatype Hist = Hist(log: seq<string>, view: View) {
    function Entries(): (e: seq<string>)
      ensures |e| == if |log| <= CMD_HISTORY_LEN then |log| else CMD_HISTORY_LEN
    {
      if |log| <= CMD_HISTORY_LEN then log else log[|log| - CMD_HISTORY_LEN..]
    }

    // The entry of a given age.
    function Entry(age: nat): string
      requires age < |Entries()|
    {
      Entries()[|Entries()| - 1 - age]
    }

    ghost predicate Ok() {
      && (view.At? ==> view.age < |Entries()|)
      && (view.Past? ==> |log| <= CMD_HISTORY_LEN || |log| % CMD_HISTORY_LEN == 0)
      && forall i, j | 0 <= i < j < |Entries()| :: Entries()[i] != Entries()[j]
    }

    // A command already there is ignored, and so the view stays; a new one goes to
    // the end.  Once the array has wrapped, the view is then on the oldest entry,
    // except when the newest entry fills the last slot of the array.
    function Push(c: string): Hist {
      if c in Entries() then this
      else
        var log' := log + [c];
        Hist(log', if |log'| <= CMD_HISTORY_LEN || |log'| % CMD_HISTORY_LEN == 0 then Past else At(CMD_HISTORY_LEN - 1))
    }

    // One step to the older entry, from the oldest around to the newest.
    function Up(): Hist {
      if Entries() == [] then this
      else match view
        case Past => this.(view := At(0))
        case At(age) => this.(view := At(if age + 1 < |Entries()| then age + 1 else 0))
    }

    // One step to the newer entry, from the newest around to the oldest.
    function Down(): Hist {
      if Entries() == [] then this
      else match view
        case Past => this.(view := At(|Entries()| - 1))
        case At(age) => this.(view := At(if age > 0 then age - 1 else |Entries()| - 1))
    }

    // The command a recall shows after its step.
    function Shown(): Option<string>
      requires view.At? ==> view.age < |Entries()|
    {
      if view.At? then Some(Entry(view.age)) else None
    }
  }

  const EMPTY := Hist([], Past)

  // -------------------------------------------------------------- abstract properties

  // The history is the FIFO "ignore if present, else append and drop the oldest
  // beyond fifteen", and its entries stay pairwise distinct.
  lemma PushIsBoundedFifo(h: Hist, c: string)
    requires h.Ok()
    ensures h.Push(c).Ok()
    ensures h.Push(c).Entries()
            == if c in h.Entries() then h.Entries()
               else if |h.Entries()| < CMD_HISTORY_LEN then h.Entries() + [c]
               else h.Entries()[1..] + [c]
  {
    PushedEntries(h, c);
  }

  lemma {:induction false} PushedEntries(h: Hist, c: string)
    ensures h.Push(c).Entries()
            == if c in h.Entries() then h.Entries()
               else if |h.Entries()| < CMD_HISTORY_LEN then h.Entries() + [c]
               else h.Entries()[1..] + [c]
  {
  }

  lemma MovesKeepOk(h: Hist)
    requires h.Ok()
    ensures h.Up().Ok() && h.Down().Ok() && h.Up().log == h.Down().log == h.log
  {
  }

  // What happens to a history: a command entered, or a recall.
  datatype Use = Pushed(command: string) | WentUp | WentDown

  function OneUse(h: Hist, u: Use): Hist {
    match u
    case Pushed(c) => h.Push(c)
    case WentUp => h.Up()
    case WentDown => h.Down()
  }

  // The bounded FIFO without duplicates, on the entries alone.
  function FifoStep(e: seq<string>, u: Use): seq<string> {
    if !u.Pushed? || u.command in e then e
    else if |e| < CMD_HISTORY_LEN then e + [u.command]
    else e[1..] + [u.command]
  }

  function Used(uses: seq<Use>): Hist {
    if uses == [] then EMPTY else OneUse(Used(uses[..|uses| - 1]), uses[|uses| - 1])
  }

  function Fifo(uses: seq<Use>): seq<string> {
    if uses == [] then [] else FifoStep(Fifo(uses[..|uses| - 1]), uses[|uses| - 1])
  }

  // After any pushes and recalls the history holds exactly what the FIFO holds, at
  // most fifteen commands, pairwise distinct; recalls never change it.
  lemma {:induction false} UsesAreFifo(uses: seq<Use>)
    ensures Used(uses).Ok() && Used(uses).Entries() == Fifo(uses)
    ensures |Fifo(uses)| <= CMD_HISTORY_LEN
    ensures forall i, j | 0 <= i < j < |Fifo(uses)| :: Fifo(uses)[i] != Fifo(uses)[j]
  {
    if uses != [] {
      UsesAreFifo(uses[..|uses| - 1]);
      UseStep(Used(uses[..|uses| - 1]), uses[|uses| - 1]);
    }
  }

  lemma {:induction false} UseStep(h: Hist, u: Use)
    requires h.Ok()
    ensures OneUse(h, u).Ok() && OneUse(h, u).Entries() == FifoStep(h.Entries(), u)
  {
    match u
    case Pushed(c) => PushIsBoundedFifo(h, c);
    case _ =>
      MovesKeepOk(h);
      assert h.Up().Entries() == h.Entries() == h.Down().Entries();
  }

  function Pushes(cs: seq<string>): (uses: seq<Use>)
    ensures |uses| == |cs| && forall i | 0 <= i < |cs| :: uses[i] == Pushed(cs[i])
  {
    if cs == [] then [] else Pushes(cs[..|cs| - 1]) + [Pushed(cs[|cs| - 1])]
  }

  lemma {:induction false} UsedPushes(cs: seq<string>)
    requires cs != []
    ensures Used(Pushes(cs)) == OneUse(Used(Pushes(cs[..|cs| - 1])), Pushed(cs[|cs| - 1]))
  {
    assert Pushes(cs)[..|cs| - 1] == Pushes(cs[..|cs| - 1]);
  }

  function LastOf(cs: seq<string>): seq<string> { if |cs| <= 15 then cs else cs[|cs| - 15..] }

  // Of different commands the last fifteen are kept, in order.
  lemma {:induction false} LastFifteen(cs: seq<string>)
    requires Distinct(cs)
    ensures Used(Pushes(cs)).Entries() == LastOf(cs)
  {
    if cs != [] {
      LastFifteen(cs[..|cs| - 1]);
      PushedOne(cs);
      KeepsFifteen(cs);
    }
  }

  lemma {:induction false} PushedOne(cs: seq<string>)
    requires cs != []
    ensures Used(Pushes(cs)).Entries() == FifoStep(Used(Pushes(cs[..|cs| - 1])).Entries(), Pushed(cs[|cs| - 1]))
  {
    UsesAreFifo(Pushes(cs[..|cs| - 1]));
    UsedPushes(cs);
    UseStep(Used(Pushes(cs[..|cs| - 1])), Pushed(cs[|cs| - 1]));
  }

  predicate Distinct(cs: seq<string>) { forall i, j | 0 <= i < j < |cs| :: cs[i] != cs[j] }

  lemma {:induction false} KeepsFifteen(cs: seq<string>)
    requires cs != [] && Distinct(cs)
    ensures FifoStep(LastOf(cs[..|cs| - 1]), Pushed(cs[|cs| - 1])) == LastOf(cs)
  {
    var before, c := cs[..|cs| - 1], cs[|cs| - 1];
    var e := LastOf(before);
    forall i | 0 <= i < |e| ensures e[i] != c {
      assert e[i] == cs[|before| - |e| + i];
    }
  }

  // Entering a command that can still be recalled changes nothing at all, and neither
  // does a recall where there is nothing to recall.
  lemma {:induction false} NothingChanges(uses: seq<Use>, u: Use)
    requires if u.Pushed? then u.command in Fifo(uses) else Fifo(uses) == []
    ensures Used(uses + [u]) == Used(uses)
  {
    UsesAreFifo(uses);
    assert (uses + [u])[..|uses|] == uses;
  }

  function Ups(h: Hist, k: nat): Hist { if k == 0 then h else Ups(h, k - 1).Up() }

  // After a newly stored command, the k-th consecutive up-arrow shows the k-th most
  // recent command, cyclically, whether or not the array has wrapped.
  lemma {:induction false} KthUp(h: Hist, c: string, k: nat)
    requires h.Ok() && c !in h.Entries() && k > 0
    ensures var n := |h.Push(c).Entries()|;
            Ups(h.Push(c), k) == h.Push(c).(view := At((k - 1) % n))
  {
    var n := |h.Push(c).Entries()|;
    if k > 1 {
      KthUp(h, c, k - 1);
      CyclicStep(k - 2, n);
    } else {
      UpAfterPush(h, c);
      SmallMod(n);
    }
  }

  lemma {:induction false} UpAfterPush(h: Hist, c: string)
    requires h.Ok() && c !in h.Entries()
    ensures h.Push(c).Up() == h.Push(c).(view := At(0))
  {
  }

  lemma SmallMod(n: nat)
    requires n > 0
    ensures 0 % n == 0
  {
  }

  lemma {:induction false} CyclicStep(i: nat, n: nat)
    requires 0 < n
    ensures (i + 1) % n == if i % n + 1 < n then i % n + 1 else 0
  {
    var q := i / n;
    assert i == q * n + i % n;
    if i % n + 1 < n {
      DivModUnique(i + 1, n, q, i % n + 1);
    } else {
      assert i + 1 == (q + 1) * n + 0;
      DivModUnique(i + 1, n, q + 1, 0);
    }
  }

  // Up and down undo each other exactly on the entries: from past the newest entry
  // they do not, unless there is no entry at all.
  lemma UpDownInverseIff(h: Hist)
    requires h.Ok()
    ensures h.Up().Down() == h <==> h.view.At? || h.Entries() == []
    ensures h.Down().Up() == h <==> h.view.At? || h.Entries() == []
  {
  }

  // The first down-arrow after a newly stored command shows the oldest entry, but the
  // second oldest once the array has wrapped, unless the command filled its last slot.
  lemma DownAfterPush(h: Hist, c: string)
    requires h.Ok() && c !in h.Entries()
    ensures var h' := h.Push(c);
            var oldest := |h'.Entries()| - 1;
            h'.Down().view == At(if |h'.log| <= CMD_HISTORY_LEN || |h'.log| % CMD_HISTORY_LEN == 0 then oldest else oldest - 1)
  {
  }

  // -------------------------------------------------------------- the wrapping array

  function Somes(log: seq<string>): (r: seq<Option<string>>)
    ensures |r| == |log| && forall i | 0 <= i < |log| :: r[i] == Some(log[i])
  {
    if log == [] then [] else Somes(log[..|log| - 1]) + [Some(log[|log| - 1])]
  }

  // The array after storing the commands one by one.
  function Stored(log: seq<string>): (s: seq<Option<string>>)
    ensures |s| == CMD_HISTORY_LEN
  {
    Slots(Somes(log), CMD_HISTORY_LEN, None)
  }

  // The slot of a recallable command.
  lemma {:induction false} StoredAt(log: seq<string>, j: nat)
    requires j < |log| && |log| <= j + CMD_HISTORY_LEN
    ensures Stored(log)[j % CMD_HISTORY_LEN] == Some(log[j])
  {
    var somes, n := Somes(log), CMD_HISTORY_LEN;
    SlotHolds(somes, n, None, j + n);
    ModDistinct(j, n, n);
    assert Unbounded(somes, n, None)[n + j] == somes[j];
  }

  lemma {:induction false} NothingStored(log: seq<string>, s: nat)
    requires |log| <= s < CMD_HISTORY_LEN
    ensures Stored(log)[s] == None
  {
    SlotHolds(Somes(log), CMD_HISTORY_LEN, None, s);
  }

  // A command is in the array if and only if it is a recallable entry.
  lemma {:induction false} PresentIff(h: Hist, c: string)
    ensures c in h.Entries() <==> Some(c) in Stored(h.log)
  {
    var n, somes := CMD_HISTORY_LEN, Somes(h.log);
    OldestFirst(somes, n, None);
    TurnedMembers(Stored(h.log), |h.log| % n, Some(c));
    WindowMembers(h, c);
  }

  lemma {:induction false} WindowMembers(h: Hist, c: string)
    ensures c in h.Entries() <==> Some(c) in Unbounded(Somes(h.log), CMD_HISTORY_LEN, None)[|h.log|..]
  {
    var u, n := Unbounded(Somes(h.log), CMD_HISTORY_LEN, None), |h.log|;
    if c in h.Entries() {
      var i :| 0 <= i < |h.Entries()| && h.Entries()[i] == c;
      EntryInWindow(h, i);
    }
    if Some(c) in u[n..] {
      var j :| 0 <= j < |u[n..]| && u[n..][j] == Some(c);
      WindowIsEntry(h, n + j);
    }
  }

  // Where an entry stands in the log.
  lemma {:induction false} EntryAt(h: Hist, i: nat)
    requires i < |h.Entries()|
    ensures h.Entries()[i] == h.log[|h.log| - |h.Entries()| + i]
  {
  }

  lemma InSuffix<T>(u: seq<T>, n: nat, j: nat)
    requires n <= j < |u|
    ensures u[j] in u[n..]
  {
    assert u[n..][j - n] == u[j];
  }

  lemma {:induction false} EntryInWindow(h: Hist, i: nat)
    requires i < |h.Entries()|
    ensures Some(h.Entries()[i]) in Unbounded(Somes(h.log), CMD_HISTORY_LEN, None)[|h.log|..]
  {
    var k := |h.log| - |h.Entries()| + i;
    EntryAt(h, i);
    UnboundedAt(h.log, k);
    InSuffix(Unbounded(Somes(h.log), CMD_HISTORY_LEN, None), |h.log|, CMD_HISTORY_LEN + k);
  }

  lemma {:induction false} WindowIsEntry(h: Hist, j: nat)
    requires |h.log| <= j < |h.log| + CMD_HISTORY_LEN
    ensures var u := Unbounded(Somes(h.log), CMD_HISTORY_LEN, None);
            u[j].Some? ==> u[j].value in h.Entries()
  {
    if j >= CMD_HISTORY_LEN {
      var k := j - CMD_HISTORY_LEN;
      UnboundedAt(h.log, k);
      EntryAt(h, k - (|h.log| - |h.Entries()|));
    }
  }

  lemma {:induction false} UnboundedAt(log: seq<string>, k: nat)
    requires k < |log|
    ensures Unbounded(Somes(log), CMD_HISTORY_LEN, None)[CMD_HISTORY_LEN + k] == Some(log[k])
  {
  }

  lemma {:induction false} StoredStep(log: seq<string>, c: string)
    ensures Stored(log + [c]) == Stored(log)[|log| % CMD_HISTORY_LEN := Some(c)]
  {
    SlotsStep(Somes(log), Some(c), CMD_HISTORY_LEN, None);
    assert (log + [c])[..|log|] == log;
  }

  // iNext: one past the slot of the newest command.
  function NextSlot(n: nat): nat { if n == 0 then 0 else (n - 1) % CMD_HISTORY_LEN + 1 }

  lemma {:induction false} NextSlotStep(n: nat)
    ensures (if NextSlot(n) >= CMD_HISTORY_LEN then 0 else NextSlot(n)) == n % CMD_HISTORY_LEN
    ensures NextSlot(n + 1) == n % CMD_HISTORY_LEN + 1
    ensures NextSlot(n) >= CMD_HISTORY_LEN <==> n > 0 && n % CMD_HISTORY_LEN == 0
  {
  }

  // iCurrent for a view of a history of n stored commands.
  function Cursor(n: nat, view: View): int {
    match view
    case Past => if n <= CMD_HISTORY_LEN then n else CMD_HISTORY_LEN
    case At(age) => (n - 1 - age) % CMD_HISTORY_LEN
  }

  // ----------------------------------------------------------------- the app_CH fields

  // The index fields agree with the abstract history.
  ghost predicate Fields(h: Hist, iTop: int, iCurrent: int, iNext: int, gStackFull: bool) {
    && iTop == |h.Entries()| && iNext == NextSlot(|h.log|)
    && (gStackFull <==> |h.log| > CMD_HISTORY_LEN)
    && iCurrent == Cursor(|h.log|, h.view)
  }

  class History {
    const uHistory: array<Option<string>>   // C strings; None is the NULL pointer
    var iTop: int
    var iCurrent: int
    var iNext: int
    var gStackFull: bool
    ghost var h: Hist

    ghost predicate Valid()
      reads this, uHistory
    {
      && h.Ok() && Fields(h, iTop, iCurrent, iNext, gStackFull)
      && uHistory.Length == CMD_HISTORY_LEN && uHistory[..] == Stored(h.log)
    }

    constructor ()
      ensures Valid() && fresh(uHistory) && h == EMPTY
    {
      uHistory := new Option<string>[CMD_HISTORY_LEN](_ => None);
      iTop, iCurrent, iNext, gStackFull := 0, 0, 0, false;
      h := EMPTY;
    }

    method PushCommand(command: string)
      requires Valid()
      modifies this, uHistory
      ensures Valid() && h == old(h).Push(command)
    {
      PresentIff(h, command);
      var found := IsStored(command);
      if !found {
        Store(command);
      }
    }

    // The loop over the array, where strcmp finds no match in an empty slot.
    method IsStored(command: string) returns (found: bool)
      requires uHistory.Length == CMD_HISTORY_LEN
      ensures found <==> Some(command) in uHistory[..]
    {
      var i := 0;
      while i < CMD_HISTORY_LEN
        invariant 0 <= i <= CMD_HISTORY_LEN
        invariant Some(command) !in uHistory[..i]
      {
        if uHistory[i] == Some(command) {
          return true;
        }
        i := i + 1;
      }
      assert uHistory[..i] == uHistory[..];
      return false;
    }

    method Store(command: string)
      requires Valid() && command !in h.Entries()
      modifies this, uHistory
      ensures Valid() && h == old(h).Push(command)
    {
      ghost var pushed := h.Push(command);
      assert pushed.Ok() && pushed.log == h.log + [command] by { PushIsBoundedFifo(h, command); }
      NextSlotStep(|h.log|);
      PushFields(h, command, iTop, iCurrent, iNext, gStackFull);
      WrapNext();
      WriteSlot(command);
      Advance();
      h := pushed;
    }

    method WrapNext()
      modifies this`iNext, this`gStackFull
      ensures iNext == if old(iNext) >= CMD_HISTORY_LEN then 0 else old(iNext)
      ensures gStackFull == (old(gStackFull) || old(iNext) >= CMD_HISTORY_LEN)
    {
      if iNext >= CMD_HISTORY_LEN {
        iNext := 0;
        gStackFull := true;
      }
    }

    // app_CH.uHistory[app_CH.iNext] = a copy of the command
    method WriteSlot(command: string)
      requires uHistory.Length == CMD_HISTORY_LEN && uHistory[..] == Stored(h.log)
      requires iNext == |h.log| % CMD_HISTORY_LEN
      modifies uHistory
      ensures uHistory[..] == Stored(h.log + [command])
    {
      StoredStep(h.log, command);
      ghost var before := uHistory[..];
      uHistory[iNext] := Some(command);
      assert uHistory[..] == before[iNext := Some(command)];
    }

    method Advance()
      modifies this`iTop, this`iNext, this`iCurrent
      ensures iNext == old(iNext) + 1 == iCurrent && iTop == if gStackFull then old(iTop) else old(iTop) + 1
    {
      iNext := iNext + 1;
      if !gStackFull {
        iTop := iTop + 1;
      }
      iCurrent := iNext;
    }

    // increment is -1 for the up-arrow and 1 for the down-arrow.
    method RetCommand(increment: int) returns (r: Option<string>)
      requires Valid() && (increment == -1 || increment == 1)
      modifies this`iCurrent, this`h
      ensures Valid() && h == (if increment == -1 then old(h).Up() else old(h).Down()) && r == h.Shown()
    {
      MoveFields(h, increment);
      MovesKeepOk(h);
      MoveCursor(increment);
      h := if increment == -1 then h.Up() else h.Down();
      ShownIsSlot(h);
      r := uHistory[..][iCurrent];
    }

    method MoveCursor(increment: int)
      requires iTop == |h.Entries()|
      modifies this`iCurrent
      ensures iCurrent == Moved(|h.log|, old(iCurrent), increment)
    {
      iCurrent := iCurrent + increment;
      if iCurrent < 0 {
        iCurrent := iTop - 1;
      }
      if (if iCurrent < 0 then -iCurrent else iCurrent) >= iTop {
        iCurrent := 0;
      }
    }
  }

  // The field updates of pushCommand.
  lemma {:induction false} PushFields(h: Hist, c: string, iTop: int, iCurrent: int, iNext: int, gStackFull: bool)
    requires h.Ok() && c !in h.Entries() && Fields(h, iTop, iCurrent, iNext, gStackFull)
    ensures var full' := gStackFull || iNext >= CMD_HISTORY_LEN;
            var next' := (if iNext >= CMD_HISTORY_LEN then 0 else iNext) + 1;
            Fields(h.Push(c), if full' then iTop else iTop + 1, next', next', full')
  {
    var n := |h.log|;
    NextSlotStep(n);
    PushedCursor(n + 1);
  }

  lemma {:induction false} PushedCursor(n: nat)
    requires n > 0
    ensures NextSlot(n)
            == Cursor(n, if n <= CMD_HISTORY_LEN || n % CMD_HISTORY_LEN == 0 then Past else At(CMD_HISTORY_LEN - 1))
  {
    LastSlot(n, CMD_HISTORY_LEN);
    if n < CMD_HISTORY_LEN {
      DivModUnique(n, CMD_HISTORY_LEN, 0, n);
    } else {
      ModDistinct(n - CMD_HISTORY_LEN, CMD_HISTORY_LEN, CMD_HISTORY_LEN);
    }
  }

  lemma {:induction false} LastSlot(n: nat, len: nat)
    requires n > 0 && len > 1
    ensures (n - 1) % len + 1 == if n % len == 0 then len else n % len
  {
    TurnedIndex(n - 1, 1, len);
  }

  // The cursor arithmetic of retCommand on n stored commands.
  function Moved(n: nat, cursor: int, increment: int): int {
    var top := if n <= CMD_HISTORY_LEN then n else CMD_HISTORY_LEN;
    var c := if cursor + increment < 0 then top - 1 else cursor + increment;
    if (if c < 0 then -c else c) >= top then 0 else c
  }

  lemma {:induction false} CursorOfAge(n: nat, age: nat)
    requires age < n && age < CMD_HISTORY_LEN
    ensures var m := (n - 1) % CMD_HISTORY_LEN;
            (n - 1 - age) % CMD_HISTORY_LEN == if age <= m then m - age else m - age + CMD_HISTORY_LEN
  {
  }

  lemma {:induction false} MoveUpAt(n: nat, age: nat)
    requires age < n && age < CMD_HISTORY_LEN
    ensures var top := if n <= CMD_HISTORY_LEN then n else CMD_HISTORY_LEN;
            Moved(n, Cursor(n, At(age)), -1) == Cursor(n, At(if age + 1 < top then age + 1 else 0))
  {
    var top := if n <= CMD_HISTORY_LEN then n else CMD_HISTORY_LEN;
    CursorOfAge(n, age);
    CursorOfAge(n, if age + 1 < top then age + 1 else 0);
  }

  lemma {:induction false} MoveDownAt(n: nat, age: nat)
    requires age < n && age < CMD_HISTORY_LEN
    ensures var top := if n <= CMD_HISTORY_LEN then n else CMD_HISTORY_LEN;
            Moved(n, Cursor(n, At(age)), 1) == Cursor(n, At(if age > 0 then age - 1 else top - 1))
  {
    var top := if n <= CMD_HISTORY_LEN then n else CMD_HISTORY_LEN;
    CursorOfAge(n, age);
    CursorOfAge(n, if age > 0 then age - 1 else top - 1);
  }

  lemma {:induction false} MovePast(n: nat)
    requires n <= CMD_HISTORY_LEN || n % CMD_HISTORY_LEN == 0
    ensures var top := if n <= CMD_HISTORY_LEN then n else CMD_HISTORY_LEN;
            && Moved(n, Cursor(n, Past), -1) == (if n == 0 then 0 else Cursor(n, At(0)))
            && Moved(n, Cursor(n, Past), 1) == (if n == 0 then 0 else Cursor(n, At(top - 1)))
  {
    if n > 0 {
      CursorOfAge(n, 0);
      CursorOfAge(n, if n <= CMD_HISTORY_LEN then n - 1 else CMD_HISTORY_LEN - 1);
    }
  }

  lemma {:induction false} MoveFields(h: Hist, increment: int)
    requires h.Ok() && (increment == -1 || increment == 1)
    ensures Moved(|h.log|, Cursor(|h.log|, h.view), increment)
            == Cursor(|h.log|, (if increment == -1 then h.Up() else h.Down()).view)
  {
    match h.view
    case Past => MovePast(|h.log|);
    case At(age) =>
      MoveUpAt(|h.log|, age);
      MoveDownAt(|h.log|, age);
  }

  lemma {:induction false} ShownIsSlot(h: Hist)
    requires h.Ok() && (h.view.Past? ==> h.Entries() == [])
    ensures 0 <= Cursor(|h.log|, h.view) < CMD_HISTORY_LEN && Stored(h.log)[Cursor(|h.log|, h.view)] == h.Shown()
  {
    match h.view
    case Past => NothingStored(h.log, 0);
    case At(age) =>
      ShownEntry(h, age);
      StoredAt(h.log, |h.log| - 1 - age);
  }

  lemma {:induction false} ShownEntry(h: Hist, age: nat)
    requires h.view == At(age) && age < |h.Entries()|
    ensures age < |h.log| && h.Shown() == Some(h.log[|h.log| - 1 - age])
  {
    EntryAt(h, |h.Entries()| - 1 - age);
  }
}
