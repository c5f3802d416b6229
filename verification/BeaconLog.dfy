// The circular log of beacon readings, its text form, and what the server makes
// of that text.
module BeaconLog {
  import opened Options
  import opened RingLog
  import opened Text

  datatype Reading = Reading(beacon: U32, local: U32)

  const NUM_READINGS: nat := 300
  // Untouched memory of the log; the server drops it.
  const FILL: U32 := 3200171710
  const EMPTY_SLOT := Reading(FILL, FILL)

  // ------------------------------------------------------------- the circular log

  // The 300 slots after logging the readings.
  function LogSlots(rs: seq<Reading>): (slots: seq<Reading>)
    ensures |slots| == NUM_READINGS
  {
    Slots(rs, NUM_READINGS, EMPTY_SLOT)
  }

  // ------------------------------------------------------------------ the message

  // sprintf "%u,%u|" without the final bar.
  function Field(r: Reading): string { Dec(r.beacon) + "," + Dec(r.local) }

  function Fields(rs: seq<Reading>): (fs: seq<string>)
    ensures |fs| == |rs|
    ensures forall i | 0 <= i < |rs| :: fs[i] == Field(rs[i])
  {
    if rs == [] then [] else [Field(rs[0])] + Fields(rs[1..])
  }

  // The text of the slots in the given order.
  function TextOf(rs: seq<Reading>): string { Terminated(Fields(rs), '|') }

  lemma FieldShape(r: Reading)
    ensures Plain(Field(r)) && Without(Field(r), '|') && |Field(r)| <= 21
    ensures Split(Field(r), ',') == [Dec(r.beacon), Dec(r.local)]
  {
    DecLength32(r.beacon);
    DecLength32(r.local);
    assert forall i | 0 <= i < |Field(r)| :: IsDigit(Field(r)[i]) || Field(r)[i] == ',';
    assert Field(r) == Dec(r.beacon) + [','] + Dec(r.local);
    SplitStep(Dec(r.beacon), ',', Dec(r.local));
    SplitNone(Dec(r.local), ',');
  }

  // At most 22 bytes per slot, and none of them a NUL or a quote.
  lemma {:induction false} TextShape(rs: seq<Reading>)
    ensures |TextOf(rs)| <= 22 * |rs| && Plain(TextOf(rs))
  {
    if rs != [] {
      TextShape(rs[1..]);
      FieldShape(rs[0]);
      assert Fields(rs)[1..] == Fields(rs[1..]);
      assert TextOf(rs) == Field(rs[0]) + "|" + TextOf(rs[1..]);
    }
  }

  ghost function SlotsOf(timestamps: array2<U32>): (s: seq<Reading>)
    requires timestamps.Length0 == 2
    reads timestamps
    ensures |s| == timestamps.Length1
    ensures forall i | 0 <= i < |s| :: s[i] == Reading(timestamps[0, i], timestamps[1, i])
  {
    seq(timestamps.Length1, i requires 0 <= i < timestamps.Length1 reads timestamps =>
      Reading(timestamps[0, i], timestamps[1, i]))
  }

  // Parts k.. are the texts of slots from..to.
  ghost predicate PartsMatch(slots: seq<Reading>, parts: seq<string>, from: nat, to: nat, k: nat)
    requires from <= to <= |slots| && k + to - from <= |parts|
  {
    forall i | from <= i < to :: parts[k + i - from] == Field(slots[i])
  }

  lemma {:induction false} TurnedParts(slots: seq<Reading>, cur: nat)
    requires cur <= |slots|
    ensures var parts := Fields(Turned(slots, cur));
            PartsMatch(slots, parts, cur, |slots|, 0) && PartsMatch(slots, parts, 0, cur, |slots| - cur)
  {
  }

  // One of the two printing loops: slots from..to, whose texts are parts k.. .
  method PrintSlots(timestamps: array2<U32>, from: nat, to: nat, buf: array<char>, start: nat,
                    ghost slots: seq<Reading>, ghost parts: seq<string>, ghost k: nat)
    returns (bufI: nat)
    requires timestamps.Length0 == 2 && from <= to <= timestamps.Length1
    requires k + to - from <= |parts| && buf.Length > 22 * |parts|
    requires slots == SlotsOf(timestamps) && PartsMatch(slots, parts, from, to, k)
    requires Printed(buf, start, parts, k, 22)
    modifies buf
    ensures Printed(buf, bufI, parts, k + to - from, 22)
    ensures from == to ==> buf[..] == old(buf[..])
  {
    bufI := start;
    var i := from;
    while i < to
      invariant from <= i <= to
      invariant Printed(buf, bufI, parts, k + i - from, 22)
      invariant from == to ==> buf[..] == old(buf[..])
    {
      var r := Reading(timestamps[0, i], timestamps[1, i]);
      FieldShape(r);
      assert slots[i] == r;
      bufI := PrintPart(buf, bufI, Field(r), parts, k + i - from, 22);
      i := i + 1;
    }
  }

  // Writes the slots, oldest first, as a NUL-terminated text and never leaves the
  // buffer: 22 bytes per slot and one for the terminator are enough.  The length
  // returned is what strlen finds afterwards; without slots nothing is written.
  method TsToString(timestamps: array2<U32>, currentTsIndex: nat, buf: array<char>) returns (length: nat)
    requires timestamps.Length0 == 2 && currentTsIndex <= timestamps.Length1
    requires buf.Length > 22 * timestamps.Length1
    modifies buf
    ensures var s := SlotsOf(timestamps);
            var text := TextOf(Turned(s, currentTsIndex));
            length == |text| < buf.Length && buf[..length] == text
            && (s != [] ==> buf[length] == '\0') && (s == [] ==> buf[..] == old(buf[..]))
  {
    ghost var slots := SlotsOf(timestamps);
    ghost var parts := Fields(Turned(slots, currentTsIndex));
    TurnedParts(slots, currentTsIndex);
    length := PrintTurned(timestamps, currentTsIndex, buf, slots, parts);
    PrintedAll(buf, length, parts, 22);
  }

  // Both loops, one after the other.
  method PrintTurned(timestamps: array2<U32>, currentTsIndex: nat, buf: array<char>,
                     ghost slots: seq<Reading>, ghost parts: seq<string>)
    returns (length: nat)
    requires timestamps.Length0 == 2 && currentTsIndex <= timestamps.Length1
    requires buf.Length > 22 * timestamps.Length1
    requires slots == SlotsOf(timestamps) && |parts| == |slots|
    requires PartsMatch(slots, parts, currentTsIndex, |slots|, 0)
    requires PartsMatch(slots, parts, 0, currentTsIndex, |slots| - currentTsIndex)
    modifies buf
    ensures Printed(buf, length, parts, |parts|, 22)
    ensures parts == [] ==> buf[..] == old(buf[..])
  {
    var n := timestamps.Length1;
    PrintedNone(buf, parts, 22);
    length := PrintSlots(timestamps, currentTsIndex, n, buf, 0, slots, parts, 0);
    length := PrintSlots(timestamps, 0, currentTsIndex, buf, length, slots, parts, n - currentTsIndex);
  }

  // ------------------------------------------------------------- the server's side

  // What one piece of the message makes the server do: nothing without a comma or
  // with a fill value, give up on the message when a field is no number.
  datatype Outcome = Skip | GiveUp | Store(beacon: string, local: string)

  function Handle(piece: string): Outcome {
    var f := Split(piece, ',');
    if |f| < 2 then Skip
    else
      var beacon := PyInt(f[0]);
      if beacon.None? then GiveUp
      else if beacon.value == FILL then Skip
      else
        var local := PyInt(f[1]);
        if local.None? then GiveUp else if local.value == FILL then Skip else Store(f[0], f[1])
  }

  // What the pieces of one message make the server store.
  function Decode(pieces: seq<string>): seq<(string, string)> {
    if pieces == [] then []
    else match Handle(pieces[0])
      case Skip => Decode(pieces[1..])
      case GiveUp => []
      case Store(beacon, local) => [(beacon, local)] + Decode(pieces[1..])
  }

  method ParseMcuMsg(payload: string) returns (stored: seq<(string, string)>)
    ensures stored == Decode(Split(Received(payload), '|'))
  {
    var data := BytesRepr(payload);
    data := Remove(data, "b'");
    data := Remove(data, "'");
    var pieces := Split(data, '|');
    stored := [];
    var i := 0;
    while i < |pieces|
      invariant 0 <= i <= |pieces|
      invariant stored + Decode(pieces[i..]) == Decode(pieces)
    {
      var reading := pieces[i];
      assert pieces[i..][0] == reading && pieces[i..][1..] == pieces[i + 1..];
      i := i + 1;
      match Handle(reading)
      case Skip => continue;
      case GiveUp => return;
      case Store(beacon, local) => stored := stored + [(beacon, local)];
    }
  }

  predicate HasFill(r: Reading) { r.beacon == FILL || r.local == FILL }

  // The readings the server can tell from untouched memory.
  function Kept(rs: seq<Reading>): seq<Reading> {
    if rs == [] then [] else (if HasFill(rs[0]) then [] else [rs[0]]) + Kept(rs[1..])
  }

  function Records(rs: seq<Reading>): (r: seq<(string, string)>)
    ensures |r| == |rs|
    ensures forall i | 0 <= i < |rs| :: r[i] == (Dec(rs[i].beacon), Dec(rs[i].local))
  {
    if rs == [] then [] else [(Dec(rs[0].beacon), Dec(rs[0].local))] + Records(rs[1..])
  }

  lemma {:induction false} DecodeFields(rs: seq<Reading>)
    ensures Decode(Fields(rs) + [""]) == Records(Kept(rs))
  {
    if rs == [] {
      SplitNone("", ',');
      assert Fields(rs) + [""] == [""];
      assert [""][1..] == [];
    } else {
      FieldsStep(rs);
      DecodeOne(rs[0], Fields(rs[1..]) + [""]);
      DecodeFields(rs[1..]);
      RecordsOfKept(rs);
    }
  }

  lemma {:induction false} FieldsStep(rs: seq<Reading>)
    requires rs != []
    ensures Fields(rs) + [""] == [Field(rs[0])] + (Fields(rs[1..]) + [""])
  {
    assert Fields(rs) == [Field(rs[0])] + Fields(rs[1..]);
  }

  lemma {:induction false} RecordsOfKept(rs: seq<Reading>)
    requires rs != []
    ensures Records(Kept(rs))
            == (if HasFill(rs[0]) then [] else [(Dec(rs[0].beacon), Dec(rs[0].local))]) + Records(Kept(rs[1..]))
  {
    if !HasFill(rs[0]) { assert Kept(rs)[1..] == Kept(rs[1..]); }
  }

  lemma {:induction false} DecodeOne(r: Reading, rest: seq<string>)
    ensures Decode([Field(r)] + rest)
            == (if HasFill(r) then [] else [(Dec(r.beacon), Dec(r.local))]) + Decode(rest)
  {
    FieldShape(r);
    PyIntOfDec(r.beacon);
    PyIntOfDec(r.local);
    assert ([Field(r)] + rest)[1..] == rest;
  }

  lemma {:induction false} KeptAppend(xs: seq<Reading>, ys: seq<Reading>)
    ensures Kept(xs + ys) == Kept(xs) + Kept(ys)
  {
    if xs == [] {
      assert xs + ys == ys;
    } else {
      assert (xs + ys)[1..] == xs[1..] + ys;
      KeptAppend(xs[1..], ys);
    }
  }

  lemma {:induction false} KeptNone(rs: seq<Reading>)
    requires forall i | 0 <= i < |rs| :: HasFill(rs[i])
    ensures Kept(rs) == []
  {
    if rs != [] { KeptNone(rs[1..]); }
  }

  lemma {:induction false} KeptAll(rs: seq<Reading>)
    ensures Kept(rs) == rs <==> forall i | 0 <= i < |rs| :: !HasFill(rs[i])
    ensures |Kept(rs)| <= |rs|
  {
    if rs != [] {
      KeptAll(rs[1..]);
      assert rs == [rs[0]] + rs[1..];
    }
  }

  // The most recent readings the log can hold.
  function Latest(rs: seq<Reading>): seq<Reading> {
    if |rs| <= NUM_READINGS then rs else rs[|rs| - NUM_READINGS..]
  }

  // The message a board sends after logging the readings.
  function Message(rs: seq<Reading>): string {
    TextOf(Turned(LogSlots(rs), |rs| % NUM_READINGS))
  }

  // What the message shows: the end of an unbounded log.
  function Window(rs: seq<Reading>): (w: seq<Reading>)
    ensures |w| == NUM_READINGS
  {
    Unbounded(rs, NUM_READINGS, EMPTY_SLOT)[|rs|..]
  }

  lemma {:induction false} KeptWindow(rs: seq<Reading>)
    ensures Kept(Window(rs)) == Kept(Latest(rs))
  {
    var window := Window(rs);
    if |rs| < NUM_READINGS {
      var unwritten := window[..NUM_READINGS - |rs|];
      assert window == unwritten + rs;
      KeptAppend(unwritten, rs);
      KeptNone(unwritten);
    } else {
      assert window == Latest(rs);
    }
  }

  // What the server decodes from the text of any slots.
  lemma {:induction false} DecodeText(slots: seq<Reading>)
    ensures Decode(Split(Received(TextOf(slots)), '|')) == Records(Kept(slots))
  {
    TextShape(slots);
    ReceivedPlain(TextOf(slots));
    forall i | 0 <= i < |slots| ensures Without(Fields(slots)[i], '|') {
      FieldShape(slots[i]);
    }
    SplitTerminated(Fields(slots), '|');
    DecodeFields(slots);
  }

  // End to end: printing the circular log and parsing the text yields the last 300
  // readings in arrival order, except those that carry the fill value.
  lemma {:induction false} EndToEnd(rs: seq<Reading>)
    ensures Decode(Split(Received(Message(rs)), '|')) == Records(Kept(Latest(rs)))
    ensures |Latest(rs)| == (if |rs| < 300 then |rs| else 300) && Latest(rs) == rs[|rs| - |Latest(rs)|..]
    ensures |Message(rs)| <= 22 * 300
  {
    OldestFirst(rs, NUM_READINGS, EMPTY_SLOT);
    TextShape(Window(rs));
    DecodeText(Window(rs));
    KeptWindow(rs);
  }

  // The server gets all of the last 300 readings if and only if none of them
  // carries the fill value.
  lemma LosslessIff(rs: seq<Reading>)
    ensures Decode(Split(Received(Message(rs)), '|')) == Records(Latest(rs))
            <==> forall i | 0 <= i < |Latest(rs)| :: !HasFill(Latest(rs)[i])
  {
    EndToEnd(rs);
    KeptAll(Latest(rs));
    if Records(Kept(Latest(rs))) == Records(Latest(rs)) {
      RecordsInjective(Kept(Latest(rs)), Latest(rs));
    }
  }

  lemma RecordsInjective(xs: seq<Reading>, ys: seq<Reading>)
    requires Records(xs) == Records(ys)
    ensures xs == ys
  {
    forall i | 0 <= i < |xs| ensures xs[i] == ys[i] {
      DecRoundTrip(xs[i].beacon);
      DecRoundTrip(ys[i].beacon);
      DecRoundTrip(xs[i].local);
      DecRoundTrip(ys[i].local);
      assert Records(xs)[i] == Records(ys)[i];
    }
  }
}
