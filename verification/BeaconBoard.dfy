// One board running test_time_beac_sync: the circular log, the duplicate filter
// and the send schedule, step by step and over whole runs.
module BeaconBoard {
  import opened Options
  import opened RingLog
  import opened Text
  import opened BeaconLog
  import opened SendSchedule

  const MAX_TX_PACKET_SIZE: nat := 30000

  // The readings a board logs of the beacons it hears: a beacon with the timestamp
  // of the one before it is skipped, and so is a leading 0.
  function Logged(heard: seq<Reading>): seq<Reading> {
    if heard == [] then []
    else if heard[|heard| - 1].beacon == LastHeard(heard[..|heard| - 1]) then Logged(heard[..|heard| - 1])
    else Logged(heard[..|heard| - 1]) + [heard[|heard| - 1]]
  }

  function LastHeard(heard: seq<Reading>): U32 {
    if heard == [] then 0 else heard[|heard| - 1].beacon
  }

  // One column of the log.
  method StoreReading(timestamps: array2<U32>, i: nat, r: Reading)
    requires timestamps.Length0 == 2 && i < timestamps.Length1
    modifies timestamps
    ensures SlotsOf(timestamps) == old(SlotsOf(timestamps))[i := r]
  {
    timestamps[0, i] := r.beacon;
    timestamps[1, i] := r.local;
  }

  class Board {
    const timestamps: array2<U32>
    const txData: array<char>
    var currentTsIndex: nat
    var lastBeacTs: U32
    var sendBeacTs: U32
    ghost var heard: seq<Reading>

    ghost predicate Valid()
      reads this, timestamps
    {
      var rs := Logged(heard);
      && timestamps.Length0 == 2 && timestamps.Length1 == NUM_READINGS
      && txData.Length == MAX_TX_PACKET_SIZE
      && SlotsOf(timestamps) == LogSlots(rs)
      && currentTsIndex == |rs| % NUM_READINGS
      && lastBeacTs == LastHeard(heard)
      && sendBeacTs == if rs == [] then 0 else Deadline(rs[0], Sends(rs))
    }

    constructor ()
      ensures Valid() && heard == [] && fresh(timestamps) && fresh(txData)
    {
      timestamps := new U32[2, NUM_READINGS]((_, _) => FILL);
      txData := new char[MAX_TX_PACKET_SIZE](_ => '\0');
      currentTsIndex, lastBeacTs, sendBeacTs := 0, 0, 0;
      heard := [];
      new;
      assert SlotsOf(timestamps) == LogSlots([]);
    }

    // Both timestamps go into the current column, and the index moves on by one.
    method Log(r: Reading)
      requires Valid() && r.beacon != lastBeacTs
      modifies this`currentTsIndex, timestamps
      ensures SlotsOf(timestamps) == LogSlots(Logged(heard) + [r])
      ensures currentTsIndex == |Logged(heard) + [r]| % NUM_READINGS
    {
      SlotsStep(Logged(heard), r, NUM_READINGS, EMPTY_SLOT);
      TurnedIndex(|Logged(heard)|, 1, NUM_READINGS);
      StoreReading(timestamps, currentTsIndex, r);
      currentTsIndex := (currentTsIndex + 1) % NUM_READINGS;
    }

    // One beacon heard.  A message goes out exactly when the count of sends goes
    // up, and then it is the whole log, oldest reading first.
    method OnBeacon(r: Reading) returns (sent: Option<string>)
      requires Valid()
      modifies this, timestamps, txData
      ensures Valid() && heard == old(heard) + [r]
      ensures sent.Some? <==> Sends(Logged(heard)) > Sends(Logged(old(heard)))
      ensures sent.Some? ==> sent.value == Message(Logged(heard))
    {
      sent := None;
      HeardStep(heard, r);
      if lastBeacTs == r.beacon {
        heard := heard + [r];
        return;
      }
      ghost var before := Logged(heard);
      Log(r);
      ScheduleFirst(before, r);
      sent := SendWhenDue(r, before);
      lastBeacTs := r.beacon;
      heard := heard + [r];
    }

    // The first reading sets the deadline to the next multiple of the interval.
    method ScheduleFirst(ghost before: seq<Reading>, r: Reading)
      requires sendBeacTs == if before == [] then 0 else Deadline(before[0], Sends(before))
      modifies this`sendBeacTs
      ensures sendBeacTs == Deadline((before + [r])[0], Sends(before))
    {
      if sendBeacTs == 0 {
        sendBeacTs := SEND_INTERVAL + (r.beacon / 1000 - r.beacon / 1000 % SEND_INTERVAL);
      }
    }

    // The message and the next deadline, which never wraps around in 32 bits.
    method SendWhenDue(r: Reading, ghost before: seq<Reading>) returns (sent: Option<string>)
      requires timestamps.Length0 == 2 && timestamps.Length1 == NUM_READINGS && txData.Length == MAX_TX_PACKET_SIZE
      requires SlotsOf(timestamps) == LogSlots(before + [r]) && currentTsIndex == |before + [r]| % NUM_READINGS
      requires sendBeacTs == Deadline((before + [r])[0], Sends(before))
      modifies this`sendBeacTs, txData
      ensures sendBeacTs == Deadline((before + [r])[0], Sends(before + [r]))
      ensures sent.Some? <==> Sends(before + [r]) > Sends(before)
      ensures sent.Some? ==> sent.value == Message(before + [r])
    {
      sent := None;
      assert (before + [r])[..|before|] == before;
      DeadlineBounded(before + [r]);
      if r.beacon / 1000 >= sendBeacTs {
        var length := TsToString(timestamps, currentTsIndex, txData);
        sent := Some(txData[..length]);
        sendBeacTs := sendBeacTs + SEND_INTERVAL;
      }
    }
  }

  lemma HeardStep(heard: seq<Reading>, r: Reading)
    ensures Logged(heard + [r]) == if r.beacon == LastHeard(heard) then Logged(heard) else Logged(heard) + [r]
    ensures LastHeard(heard + [r]) == r.beacon
  {
    assert (heard + [r])[..|heard|] == heard;
  }

  // One beacon at the board and, if it makes the board send, the message at the
  // server: the last 300 readings logged, in order, without those that carry the
  // fill value.
  method Deliver(board: Board, r: Reading) returns (stored: Option<seq<(string, string)>>)
    requires board.Valid()
    modifies board, board.timestamps, board.txData
    ensures board.Valid() && board.heard == old(board.heard) + [r]
    ensures stored.Some? <==> Sends(Logged(board.heard)) > Sends(Logged(old(board.heard)))
    ensures stored.Some? ==> stored.value == Records(Kept(Latest(Logged(board.heard))))
  {
    var sent := board.OnBeacon(r);
    stored := None;
    if sent.Some? {
      EndToEnd(Logged(board.heard));
      var records := ParseMcuMsg(sent.value);
      stored := Some(records);
    }
  }

  lemma {:induction false} DeliveriesStep(heard: seq<Reading>, r: Reading)
    ensures Deliveries(heard + [r])
            == if Sends(Logged(heard + [r])) > Sends(Logged(heard))
               then Deliveries(heard) + [Records(Kept(Latest(Logged(heard + [r]))))]
               else Deliveries(heard)
  {
    assert (heard + [r])[..|heard|] == heard;
  }

  // Every message of every run.
  method DeliverAll(beacons: seq<Reading>) returns (stored: seq<seq<(string, string)>>)
    ensures stored == Deliveries(beacons)
  {
    var board := new Board();
    stored := [];
    var i := 0;
    while i < |beacons|
      invariant 0 <= i <= |beacons|
      invariant board.Valid() && board.heard == beacons[..i]
      invariant fresh(board) && fresh(board.timestamps) && fresh(board.txData)
      invariant stored == Deliveries(board.heard)
    {
      stored := DeliverNext(board, beacons[i], stored);
      assert board.heard == beacons[..i + 1];
      i := i + 1;
    }
    assert beacons[..|beacons|] == beacons;
  }

  // One beacon of a run, with what the server has stored before and after it.
  method DeliverNext(board: Board, r: Reading, before: seq<seq<(string, string)>>) returns (stored: seq<seq<(string, string)>>)
    requires board.Valid() && before == Deliveries(board.heard)
    modifies board, board.timestamps, board.txData
    ensures board.Valid() && board.heard == old(board.heard) + [r] && stored == Deliveries(board.heard)
  {
    DeliveriesStep(board.heard, r);
    var records := Deliver(board, r);
    stored := before;
    if records.Some? {
      stored := stored + [records.value];
    }
  }

  // What the server is meant to get: at each send, the latest readings.
  function Deliveries(heard: seq<Reading>): seq<seq<(string, string)>> {
    if heard == [] then []
    else
      var before := heard[..|heard| - 1];
      if Sends(Logged(heard)) > Sends(Logged(before))
      then Deliveries(before) + [Records(Kept(Latest(Logged(heard))))]
      else Deliveries(before)
  }

  lemma {:induction false} LoggedStep(heard: seq<Reading>)
    requires heard != []
    ensures var before := Logged(heard[..|heard| - 1]);
            Logged(heard) == before || Logged(heard) == before + [heard[|heard| - 1]]
  {
  }

  // As many deliveries as sends.
  lemma {:induction false} OneDeliveryPerSend(heard: seq<Reading>)
    ensures |Deliveries(heard)| == Sends(Logged(heard))
  {
    if heard != [] {
      var before := heard[..|heard| - 1];
      OneDeliveryPerSend(before);
      LoggedStep(heard);
      assert Logged(heard) != Logged(before) ==> Logged(heard)[..|Logged(heard)| - 1] == Logged(before);
    }
  }

  // --------------------------------------------------------------- what is logged

  // No beacon has the timestamp of the one before it, and the first is not 0.
  predicate NoRepeats(heard: seq<Reading>) {
    forall i | 0 <= i < |heard| :: FirstOfItsTime(heard, i)
  }

  predicate FirstOfItsTime(heard: seq<Reading>, i: nat)
    requires i < |heard|
  {
    heard[i].beacon != if i == 0 then 0 else heard[i - 1].beacon
  }

  lemma {:induction false} LoggedShorter(heard: seq<Reading>)
    ensures |Logged(heard)| <= |heard|
  {
    if heard != [] { LoggedShorter(heard[..|heard| - 1]); }
  }

  lemma {:induction false} NoRepeatsPrefix(heard: seq<Reading>)
    requires heard != []
    ensures NoRepeats(heard) <==> NoRepeats(heard[..|heard| - 1]) && FirstOfItsTime(heard, |heard| - 1)
  {
    var before := heard[..|heard| - 1];
    assert forall i | 0 <= i < |before| :: FirstOfItsTime(before, i) <==> FirstOfItsTime(heard, i);
  }

  // Everything heard is logged if and only if no timestamp repeats the one before it.
  lemma {:induction false} AllLoggedIff(heard: seq<Reading>)
    ensures Logged(heard) == heard <==> NoRepeats(heard)
  {
    if heard != [] {
      var before := heard[..|heard| - 1];
      AllLoggedIff(before);
      NoRepeatsPrefix(heard);
      LoggedShorter(before);
      assert heard == before + [heard[|heard| - 1]];
      if FirstOfItsTime(heard, |heard| - 1) && Logged(heard) == heard {
        assert Logged(heard)[..|heard| - 1] == before;
        assert |Logged(before)| == |before|;
        assert (Logged(before) + [heard[|heard| - 1]])[..|before|] == Logged(before);
      }
    }
  }

  // A repetition at the end, however often it is heard, changes nothing.
  lemma {:induction false} RepeatsIgnored(heard: seq<Reading>, again: seq<Reading>)
    requires forall i | 0 <= i < |again| :: again[i].beacon == LastHeard(heard)
    ensures Logged(heard + again) == Logged(heard) && LastHeard(heard + again) == LastHeard(heard)
  {
    if again == [] {
      assert heard + again == heard;
    } else {
      var k := |again| - 1;
      RepeatsIgnored(heard, again[..k]);
      assert heard + again == heard + again[..k] + [again[k]];
      HeardStep(heard + again[..k], again[k]);
    }
  }

  // ------------------------------------------------------------- shared deadlines

  // The deadlines that the readings make a board set, in order.
  predicate AreDeadlines(ds: seq<U32>, rs: seq<Reading>) {
    if rs == [] then ds == []
    else |ds| == Sends(rs) + 1 && forall k | 0 <= k < |ds| :: ds[k] == Deadline(rs[0], k)
  }

  // Every value a board's deadline takes over a run.
  method DeadlinesOf(beacons: seq<Reading>) returns (deadlines: seq<U32>)
    ensures AreDeadlines(deadlines, Logged(beacons))
  {
    var board := new Board();
    NoDeadlines();
    deadlines := DeadlinesOn(board, beacons);
  }

  method DeadlinesOn(board: Board, beacons: seq<Reading>) returns (deadlines: seq<U32>)
    requires board.Valid() && board.heard == [] && AreDeadlines([], Logged([]))
    modifies board, board.timestamps, board.txData
    ensures AreDeadlines(deadlines, Logged(beacons))
  {
    deadlines := [];
    var i := 0;
    while i < |beacons|
      invariant 0 <= i <= |beacons|
      invariant board.Valid() && board.heard == beacons[..i]
      invariant AreDeadlines(deadlines, Logged(board.heard))
    {
      deadlines := DeadlinesNext(board, beacons[i], deadlines);
      assert board.heard == beacons[..i + 1];
      i := i + 1;
    }
    assert beacons[..|beacons|] == beacons;
  }

  lemma NoDeadlines()
    ensures AreDeadlines([], Logged([]))
  {
  }

  // One beacon of a run, with the deadlines before and after it.
  method DeadlinesNext(board: Board, r: Reading, before: seq<U32>) returns (deadlines: seq<U32>)
    requires board.Valid() && AreDeadlines(before, Logged(board.heard))
    modifies board, board.timestamps, board.txData
    ensures board.Valid() && board.heard == old(board.heard) + [r] && AreDeadlines(deadlines, Logged(board.heard))
  {
    ghost var heard := board.heard;
    var last := board.sendBeacTs;
    var sent := board.OnBeacon(r);
    DeadlinesStep(heard, r, before, last, board.sendBeacTs);
    deadlines := if board.sendBeacTs != last then before + [board.sendBeacTs] else before;
  }

  // The deadline of a board that has logged the readings.
  function DeadlineAfter(rs: seq<Reading>): nat { if rs == [] then 0 else Deadline(rs[0], Sends(rs)) }

  lemma {:induction false} DeadlinesStep(heard: seq<Reading>, r: Reading, ds: seq<U32>, before: U32, after: U32)
    requires AreDeadlines(ds, Logged(heard))
    requires before == DeadlineAfter(Logged(heard)) && after == DeadlineAfter(Logged(heard + [r]))
    ensures AreDeadlines(if after != before then ds + [after] else ds, Logged(heard + [r]))
  {
    HeardStep(heard, r);
    if r.beacon != LastHeard(heard) { DeadlinesGrow(Logged(heard), r, ds); }
  }

  lemma {:induction false} DeadlinesGrow(rs: seq<Reading>, r: Reading, ds: seq<U32>)
    requires AreDeadlines(ds, rs) && DeadlineAfter(rs + [r]) < TWO32
    ensures var after := DeadlineAfter(rs + [r]);
            AreDeadlines(if after != DeadlineAfter(rs) then ds + [after] else ds, rs + [r])
  {
    assert (rs + [r])[..|rs|] == rs;
    if rs == [] {
      assert rs + [r] == [r];
      FirstReadingNotSent(r);
    }
  }

  // The deadline sequences of two boards' runs agree as far as both go if and only if
  // the first readings fall in the same interval, whatever else the boards hear.
  method SharedDeadlinesIff(a: seq<Reading>, b: seq<Reading>) returns (da: seq<U32>, db: seq<U32>)
    requires Logged(a) != [] && Logged(b) != []
    ensures AreDeadlines(da, Logged(a)) && AreDeadlines(db, Logged(b))
    ensures da <= db || db <= da <==> Interval(Logged(a)[0]) == Interval(Logged(b)[0])
  {
    da := DeadlinesOf(a);
    db := DeadlinesOf(b);
    assert da[0] == Deadline(Logged(a)[0], 0) && db[0] == Deadline(Logged(b)[0], 0);
  }
}
