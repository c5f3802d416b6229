// The drop-oldest loop of tx_accelerometer and the text form of the queue.
module QueueText {
  import opened Options
  import opened Text
  import opened ReadingQueue

  function LastN<T>(s: seq<T>, n: nat): seq<T> {
    if |s| <= n then s else s[|s| - n..]
  }

  // One turn of the loop: make room by dropping the oldest reading, then append.
  // The row that Deque handed out is the very row the append then overwrites.
  method Record(q: Queue, reading: array<I32>)
    requires q.Valid() && reading.Length == MAX_ELEM_ARR_SIZE
    modifies q, q.arr
    ensures q.Valid() && q.Contents() == LastN(old(q.Contents()) + [reading[..]], q.capacity)
    ensures old(q.size) == q.capacity ==> q.back == old(q.front)
  {
    assert reading[..MAX_ELEM_ARR_SIZE] == reading[..];
    MakeRoom(q);
    q.NextSlot();
    var r := q.Enque(reading);
  }

  // The oldest reading is dropped when the queue is full.
  method MakeRoom(q: Queue)
    requires q.Valid()
    modifies q
    ensures q.Valid() && q.size < q.capacity && q.back == old(q.back)
    ensures if old(q.size) == q.capacity
            then q.Contents() == old(q.Contents())[1..] && (q.back + 1) % q.capacity == old(q.front)
            else q.Contents() == old(q.Contents())
  {
    q.NextSlot();
    var full := q.QFull();
    if full == 1 {
      var oldest := q.Deque();
    }
  }

  lemma LastNStep<T>(s: seq<T>, x: T, n: nat)
    requires n > 0
    ensures LastN(LastN(s, n) + [x], n) == LastN(s + [x], n)
  {
  }

  lemma LastNTaken<T>(s: seq<T>, i: nat, n: nat)
    requires n > 0 && i < |s|
    ensures LastN(LastN(s[..i], n) + [s[i]], n) == LastN(s[..i + 1], n)
  {
    assert s[..i + 1] == s[..i] + [s[i]];
    LastNStep(s[..i], s[i], n);
  }

  method FillReading(reading: array<I32>, row: Row)
    requires reading.Length == MAX_ELEM_ARR_SIZE == |row|
    modifies reading
    ensures reading[..] == row
  {
    reading[0], reading[1], reading[2], reading[3], reading[4] := row[0], row[1], row[2], row[3], row[4];
  }

  // One turn of the loop with its reading.
  method TakeReading(q: Queue, reading: array<I32>, row: Row)
    requires q.Valid() && reading.Length == MAX_ELEM_ARR_SIZE == |row|
    modifies q, q.arr, reading
    ensures q.Valid() && q.Contents() == LastN(old(q.Contents()) + [row], q.capacity)
  {
    ghost var before := q.Contents();
    FillReading(reading, row);
    assert q.Contents() == before;
    Record(q, reading);
  }

  // Over whole runs the queue holds the last readings, oldest first.
  method TxAccelerometer(capacity: nat, readings: seq<Row>) returns (q: Queue)
    requires capacity > 0 && WellShaped(readings)
    ensures q.Valid() && q.capacity == capacity && q.Contents() == LastN(readings, capacity)
  {
    q := new Queue(capacity);
    var reading := new I32[MAX_ELEM_ARR_SIZE](_ => 0);
    var i := 0;
    while i < |readings|
      invariant 0 <= i <= |readings|
      invariant fresh(q) && fresh(q.arr) && fresh(reading)
      invariant q.Valid() && q.capacity == capacity
      invariant q.Contents() == LastN(readings[..i], capacity)
    {
      LastNTaken(readings, i, capacity);
      TakeReading(q, reading, readings[i]);
      i := i + 1;
    }
    assert readings[..|readings|] == readings;
  }

  // ---------------------------------------------------------------------- the text

  // printf "%u" of an int32_t.
  function Unsigned(x: I32): U32 { if x < 0 then x + TWO32 else x }

  // sprintf "%u,%u,%i,%i,%i"
  function Numbers(r: Row): seq<string>
    requires |r| == MAX_ELEM_ARR_SIZE
  {
    [Dec(Unsigned(r[0])), Dec(Unsigned(r[1])), Int(r[2]), Int(r[3]), Int(r[4])]
  }

  predicate WellShaped(rows: seq<Row>) { forall i | 0 <= i < |rows| :: |rows[i]| == MAX_ELEM_ARR_SIZE }

  function Items(rows: seq<Row>): (s: seq<string>)
    requires WellShaped(rows)
    ensures |s| == |rows|
    ensures forall i | 0 <= i < |rows| :: s[i] == Join(Numbers(rows[i]), ',')
  {
    if rows == [] then [] else [Join(Numbers(rows[0]), ',')] + Items(rows[1..])
  }

  function QueueString(rows: seq<Row>): string
    requires WellShaped(rows)
  {
    Terminated(Items(rows), '|')
  }

  lemma IntShape(n: I32)
    ensures |Int(n)| <= 11 && forall i | 0 <= i < |Int(n)| :: IsDigit(Int(n)[i]) || Int(n)[i] == '-'
  {
    var magnitude: int := n;
    DecLength32(if n < 0 then -magnitude else magnitude);
  }

  lemma NumbersShape(r: Row)
    requires |r| == MAX_ELEM_ARR_SIZE
    ensures forall i | 0 <= i < 5 ::
              |Numbers(r)[i]| <= (if i < 2 then 10 else 11) && Without(Numbers(r)[i], ',') && Without(Numbers(r)[i], '|')
  {
    DecLength32(Unsigned(r[0]));
    DecLength32(Unsigned(r[1]));
    IntShape(r[2]);
    IntShape(r[3]);
    IntShape(r[4]);
  }

  lemma {:induction false} JoinFive(n: seq<string>)
    requires |n| == 5
    ensures Join(n, ',') == n[0] + "," + (n[1] + "," + (n[2] + "," + (n[3] + "," + n[4])))
  {
    assert n[3..][1..] == n[4..] && n[2..][1..] == n[3..] && n[1..][1..] == n[2..];
    assert Join(n[4..], ',') == n[4];
    assert Join(n[3..], ',') == n[3] + "," + Join(n[4..], ',');
    assert Join(n[2..], ',') == n[2] + "," + Join(n[3..], ',');
    assert Join(n[1..], ',') == n[1] + "," + Join(n[2..], ',');
  }

  lemma {:induction false} JoinWithout(parts: seq<string>, c: char)
    requires c != ',' && forall i | 0 <= i < |parts| :: Without(parts[i], c)
    ensures Without(Join(parts, ','), c)
  {
    if |parts| > 1 { JoinWithout(parts[1..], c); }
  }

  // At most 57 characters per reading, so that the 61-byte scratch buffer holds one
  // with its bar and terminator.
  lemma {:induction false} ItemShape(r: Row)
    requires |r| == MAX_ELEM_ARR_SIZE
    ensures |Join(Numbers(r), ',')| <= 57 && Without(Join(Numbers(r), ','), '|')
    ensures Split(Join(Numbers(r), ','), ',') == Numbers(r)
  {
    var n := Numbers(r);
    NumbersShape(r);
    SplitJoin(n, ',');
    JoinWithout(n, '|');
    assert |Join(n, ',')| <= 57 by { JoinFive(n); }
  }

  // sprintf of the i-th oldest reading, without the bar.
  method ItemAt(q: Queue, i: nat, ghost parts: seq<string>) returns (item: string)
    requires Holds(q, parts) && i < q.size
    ensures i < |parts| && item == parts[i] && |item| <= 57
  {
    var s := q.QIndex(i);
    var row := [q.arr[s, 0], q.arr[s, 1], q.arr[s, 2], q.arr[s, 3], q.arr[s, 4]];
    assert row == RowOf(q.arr, s) == q.Contents()[i];
    assert ItemOf(q, i, parts[i]);
    ItemShape(row);
    item := Join(Numbers(row), ',');
  }

  // The length returned is what strlen finds afterwards; an empty queue writes nothing.
  method QToString(q: Queue, buf: array<char>) returns (length: nat)
    requires q.Valid() && buf.Length > 58 * q.size
    modifies buf
    ensures var text := QueueString(q.Contents());
            length == |text| < buf.Length && buf[..length] == text && (q.size > 0 ==> buf[length] == '\0')
    ensures q.size == 0 ==> buf[..] == old(buf[..])
  {
    ghost var parts := Items(q.Contents());
    PrintedNone(buf, parts, 58);
    length := 0;
    if q.size > 0 {
      length := PrintItems(q, buf, parts);
    }
    PrintedAll(buf, length, parts, 58);
  }

  // The queue holds the readings whose texts are the parts.
  ghost predicate Holds(q: Queue, parts: seq<string>)
    reads q, q.arr
  {
    q.Valid() && |parts| == q.size && forall i | 0 <= i < |parts| :: ItemOf(q, i, parts[i])
  }

  // The text of the i-th oldest reading.
  ghost predicate ItemOf(q: Queue, i: nat, item: string)
    requires q.Valid() && i < q.size
    reads q, q.arr
  {
    item == Join(Numbers(q.Contents()[i]), ',')
  }

  // The loop over the readings.
  method PrintItems(q: Queue, buf: array<char>, ghost parts: seq<string>) returns (length: nat)
    requires Holds(q, parts) && buf.Length > 58 * |parts| && Printed(buf, 0, parts, 0, 58)
    modifies buf
    ensures Printed(buf, length, parts, |parts|, 58)
  {
    length := 0;
    var i := 0;
    while i < q.size
      invariant Printing(q, buf, length, parts, i)
    {
      length := PrintItem(q, i, buf, length, parts);
      i := i + 1;
    }
  }

  // The first i readings are in the buffer.
  ghost predicate Printing(q: Queue, buf: array<char>, length: nat, parts: seq<string>, i: nat)
    reads q, q.arr, buf
  {
    i <= q.size && Holds(q, parts) && buf.Length > 58 * |parts| && Printed(buf, length, parts, i, 58)
  }

  method PrintItem(q: Queue, i: nat, buf: array<char>, at: nat, ghost parts: seq<string>) returns (length: nat)
    requires Printing(q, buf, at, parts, i) && i < q.size
    modifies buf
    ensures Printing(q, buf, length, parts, i + 1)
  {
    var item := ItemAt(q, i, parts);
    length := PrintPart(buf, at, item, parts, i, 58);
  }

  lemma {:induction false} QueuePieces(rows: seq<Row>)
    requires WellShaped(rows)
    ensures Split(Received(QueueString(rows)), '|') == Items(rows) + [""]
  {
    QueueStringPlain(rows);
    ReceivedPlain(QueueString(rows));
    forall k | 0 <= k < |rows| ensures Without(Items(rows)[k], '|') { ItemShape(rows[k]); }
    SplitTerminated(Items(rows), '|');
  }

  // The number v that is read for a 32-bit value x: x itself where it is printed as
  // signed, and where it is printed as unsigned the number of 32 bits that differs
  // from x by a multiple of 2 to the 32.
  predicate ReadAs(v: int, x: int, unsigned: bool) {
    if unsigned then 0 <= v < 0x1_0000_0000 && (v - x) % 0x1_0000_0000 == 0 else v == x
  }

  // Splitting the text on bars and commas recovers the five numbers of every
  // reading, the first two as unsigned 32-bit numbers.
  lemma {:induction false} QueueTextRoundTrip(rows: seq<Row>, i: nat, j: nat)
    requires WellShaped(rows) && i < |rows| && j < 5
    ensures var pieces := Split(Received(QueueString(rows)), '|');
            && |pieces| == |rows| + 1 && pieces[|rows|] == ""
            && |Split(pieces[i], ',')| == 5
            && PyInt(Split(pieces[i], ',')[j]).Some?
            && ReadAs(PyInt(Split(pieces[i], ',')[j]).value, rows[i][j], j < 2)
  {
    QueuePieces(rows);
    ItemShape(rows[i]);
    NumberReadBack(rows[i], j);
  }

  lemma {:induction false} UnsignedIs(x: I32)
    ensures ReadAs(Unsigned(x), x, true)
  {
    var v: int, w: int := Unsigned(x), x;
    assert v - w == 0 || v - w == 0x1_0000_0000;
  }

  lemma {:induction false} NumberReadBack(r: Row, j: nat)
    requires |r| == MAX_ELEM_ARR_SIZE && j < 5
    ensures PyInt(Numbers(r)[j]).Some? && ReadAs(PyInt(Numbers(r)[j]).value, r[j], j < 2)
  {
    if j < 2 {
      assert Numbers(r)[j] == Dec(Unsigned(r[j]));
      PyIntOfDec(Unsigned(r[j]));
      UnsignedIs(r[j]);
    } else {
      assert Numbers(r)[j] == Int(r[j]);
      PyIntOfInt(r[j]);
    }
  }

  // A 32-bit timestamp held in an int32_t: its two's complement.
  predicate HeldAs(x: I32, t: U32) { x == t || x == t - 0x1_0000_0000 }

  // The server reads exactly the two timestamps the board measured, also where the
  // int32_t that holds them is negative.
  lemma {:induction false} TimestampsReadBack(rows: seq<Row>, i: nat, j: nat, t: U32)
    requires WellShaped(rows) && i < |rows| && j < 2 && HeldAs(rows[i][j], t)
    ensures var pieces := Split(Received(QueueString(rows)), '|');
            i < |pieces| && j < |Split(pieces[i], ',')| && PyInt(Split(pieces[i], ',')[j]) == Some(t)
  {
    QueueTextRoundTrip(rows, i, j);
    SameResidue(PyInt(Split(Split(Received(QueueString(rows)), '|')[i], ',')[j]).value, rows[i][j], t);
  }

  lemma {:induction false} SameResidue(v: int, x: I32, t: U32)
    requires ReadAs(v, x, true) && HeldAs(x, t)
    ensures v == t
  {
  }

  lemma {:induction false} JoinPlain(parts: seq<string>)
    requires forall i | 0 <= i < |parts| :: Plain(parts[i])
    ensures Plain(Join(parts, ','))
  {
    if |parts| > 1 { JoinPlain(parts[1..]); }
  }

  lemma {:induction false} QueueStringPlain(rows: seq<Row>)
    requires WellShaped(rows)
    ensures Plain(QueueString(rows))
  {
    if rows != [] {
      QueueStringPlain(rows[1..]);
      var n := Numbers(rows[0]);
      IntShape(rows[0][2]);
      IntShape(rows[0][3]);
      IntShape(rows[0][4]);
      JoinPlain(n);
      assert Items(rows)[1..] == Items(rows[1..]);
      assert QueueString(rows) == Join(n, ',') + "|" + QueueString(rows[1..]);
    }
  }
}
