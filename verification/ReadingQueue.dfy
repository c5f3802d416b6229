// The reading queue (queue.c), its use by tx_accelerometer and its text form.
module ReadingQueue {
  import opened Arithmetic
  import opened Text

  const MAX_ELEM_ARR_SIZE: nat := 5

  // A reading is the five numbers of one row.
  type Row = seq<I32>

  ghost function RowOf(arr: array2<I32>, i: nat): (r: Row)
    requires i < arr.Length0
    reads arr
    ensures |r| == arr.Length1
  {
    seq(arr.Length1, j requires 0 <= j < arr.Length1 reads arr => arr[i, j])
  }

  // Adding within one turn of a circular array.
  function Turn(x: nat, n: nat): (r: nat)
    requires x < 2 * n
    ensures r < n
  {
    if x < n then x else x - n
  }

  // The same with the operator the code uses.
  lemma {:induction false} TurnIsMod(x: nat, n: nat)
    requires x < 2 * n
    ensures x % n == Turn(x, n)
  {
    DivModUnique(x, n, if x < n then 0 else 1, Turn(x, n));
  }

  class Queue {
    const capacity: nat
    const arr: array2<I32>
    var front: nat
    var back: nat
    var size: nat

    // back is the slot of the newest reading, one before front when there is none.
    ghost predicate Valid()
      reads this
    {
      && 0 < capacity && arr.Length0 == capacity && arr.Length1 == MAX_ELEM_ARR_SIZE
      && front < capacity && size <= capacity
      && back == if size == 0 then Turn(front + capacity - 1, capacity) else Turn(front + size - 1, capacity)
    }

    // The closed form of the same, with the remainder of a negative number taken
    // as non-negative.
    lemma BackFormula()
      requires Valid()
      ensures back == (front + size - 1) % capacity
    {
      if front + size == 0 {
        DivModUnique(-1, capacity, -1, capacity - 1);
      } else {
        TurnIsMod(front + size - 1, capacity);
      }
    }

    // The readings, oldest first.
    ghost function Contents(): (c: seq<Row>)
      reads this, arr
      requires Valid()
      ensures |c| == size
      ensures forall i | 0 <= i < size :: c[i] == RowOf(arr, Turn(front + i, capacity))
    {
      seq(size, i requires 0 <= i < size reads this, arr requires Valid() => RowOf(arr, Turn(front + i, capacity)))
    }

    // initQueue, for any capacity.
    constructor (capacity: nat)
      requires capacity > 0
      ensures Valid() && fresh(arr) && this.capacity == capacity && Contents() == []
    {
      this.capacity := capacity;
      arr := new I32[capacity, MAX_ELEM_ARR_SIZE]((_, _) => 0);
      size, front, back := 0, 0, capacity - 1;
    }

    method QFull() returns (r: int)
      ensures r == if size == capacity then 1 else 0
    {
      r := if size == capacity then 1 else 0;
    }

    method QEmpty() returns (r: int)
      ensures r == if size == 0 then 1 else 0
    {
      r := if size == 0 then 1 else 0;
    }

    // The slot of the i-th oldest reading, and a slot in range for any other i.
    method QIndex(i: nat) returns (slot: int)
      requires Valid()
      ensures size == 0 ==> slot == -1
      ensures 0 < size ==> 0 <= slot == (front + i) % capacity < capacity && (i < size ==> RowOf(arr, slot) == Contents()[i])
    {
      if size == 0 { return -1; }
      if i < size { TurnIsMod(front + i, capacity); }
      return (front + i) % capacity;
    }

    method QFront() returns (slot: int)
      requires Valid()
      ensures size == 0 ==> slot == -1
      ensures 0 < size ==> 0 <= slot < capacity && RowOf(arr, slot) == Contents()[0]
    {
      slot := if size == 0 then -1 else front;
    }

    method QBack() returns (slot: int)
      requires Valid()
      ensures size == 0 ==> slot == -1
      ensures 0 < size ==> 0 <= slot < capacity && RowOf(arr, slot) == Contents()[size - 1]
    {
      slot := if size == 0 then -1 else back;
    }

    // The slot after back is the one a new reading goes to.
    lemma {:induction false} NextSlot()
      requires Valid()
      ensures (back + 1) % capacity == Turn(front + size, capacity)
    {
      TurnIsMod(back + 1, capacity);
    }

    // Appends a copy of the values, or refuses when full.
    method Enque(vals: array<I32>) returns (r: int)
      requires Valid() && vals.Length >= MAX_ELEM_ARR_SIZE
      modifies this, arr
      ensures Valid()
      ensures old(size) == capacity ==> r == -1 && front == old(front) && Contents() == old(Contents())
      ensures old(size) < capacity ==>
                r == 0 && front == old(front) && back == (old(back) + 1) % capacity
                && Contents() == old(Contents()) + [vals[..MAX_ELEM_ARR_SIZE]]
      ensures forall s | 0 <= s < capacity && (s != back || r == -1) :: RowOf(arr, s) == old(RowOf(arr, s))
    {
      var full := QFull();
      if full == 1 { return -1; }
      NextSlot();
      back := (back + 1) % capacity;
      CopyRow(vals);
      size := size + 1;
      return 0;
    }

    // The copying loop of enque.
    method CopyRow(vals: array<I32>)
      requires arr.Length1 == MAX_ELEM_ARR_SIZE <= vals.Length && back < arr.Length0
      modifies arr
      ensures RowOf(arr, back) == vals[..MAX_ELEM_ARR_SIZE]
      ensures forall s | 0 <= s < arr.Length0 && s != back :: RowOf(arr, s) == old(RowOf(arr, s))
    {
      var i := 0;
      while i < MAX_ELEM_ARR_SIZE
        invariant 0 <= i <= MAX_ELEM_ARR_SIZE
        invariant forall j | 0 <= j < i :: arr[back, j] == vals[j]
        invariant forall s, j | 0 <= s < arr.Length0 && 0 <= j < arr.Length1 && s != back :: arr[s, j] == old(arr[s, j])
      {
        arr[back, i] := vals[i];
        i := i + 1;
      }
    }

    // Drops the oldest reading and returns its slot, the row itself staying where
    // it is; -1 when empty.
    method Deque() returns (slot: int)
      requires Valid()
      modifies this
      ensures Valid()
      ensures old(size) == 0 ==> slot == -1 && Contents() == old(Contents())
      ensures old(size) > 0 ==>
                slot == old(front) && front == (old(front) + 1) % capacity && back == old(back)
                && Contents() == old(Contents())[1..] && RowOf(arr, slot) == old(Contents())[0]
    {
      var empty := QEmpty();
      if empty == 1 { return -1; }
      slot := front;
      TurnIsMod(front + 1, capacity);
      front := (front + 1) % capacity;
      size := size - 1;
      assert old(Contents())[0] == RowOf(arr, slot);
    }
  }
}
