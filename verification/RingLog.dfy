// A log kept in a circular array: entry number k goes to slot k modulo the length.
module RingLog {
  import opened Arithmetic

  // The slots after logging the entries one by one.
  function Slots<T>(log: seq<T>, n: nat, empty: T): (slots: seq<T>)
    requires n > 0
    ensures |slots| == n
  {
    if log == [] then seq(n, _ => empty)
    else Slots(log[..|log| - 1], n, empty)[(|log| - 1) % n := log[|log| - 1]]
  }

  // Unwritten slots followed by the entries: what an unbounded log would look like.
  function Unbounded<T>(log: seq<T>, n: nat, empty: T): (u: seq<T>)
    ensures |u| == n + |log|
    ensures forall j | 0 <= j < n :: u[j] == empty
    ensures forall j | 0 <= j < |log| :: u[n + j] == log[j]
  {
    seq(n, _ => empty) + log
  }

  lemma {:induction false} SlotsStep<T>(log: seq<T>, x: T, n: nat, empty: T)
    requires n > 0
    ensures Slots(log + [x], n, empty) == Slots(log, n, empty)[|log| % n := x]
  {
    assert (log + [x])[..|log|] == log;
  }

  lemma {:induction false} ModDistinct(x: nat, d: nat, n: nat)
    requires 0 < d <= n
    ensures (x + d) % n == x % n <==> d == n
  {
    var q, r := x / n, x % n;
    assert x == q * n + r;
    if r + d < n {
      DivModUnique(x + d, n, q, r + d);
    } else {
      assert x + d == (q + 1) * n + (r + d - n);
      DivModUnique(x + d, n, q + 1, r + d - n);
    }
  }

  // Each slot holds the latest of the last n entries of the unbounded log.
  lemma {:induction false} SlotHolds<T>(log: seq<T>, n: nat, empty: T, j: nat)
    requires n > 0 && |log| <= j < |log| + n
    ensures Slots(log, n, empty)[j % n] == Unbounded(log, n, empty)[j]
  {
    if log == [] {
      DivModUnique(j, n, 0, j);
    } else {
      var before := log[..|log| - 1];
      ModDistinct(|log| - 1, j - (|log| - 1), n);
      if j < |log| - 1 + n {
        SlotHolds(before, n, empty, j);
        assert Unbounded(before, n, empty)[j] == Unbounded(log, n, empty)[j];
      }
    }
  }

  lemma {:induction false} TurnedIndex(x: nat, k: nat, n: nat)
    requires k < n
    ensures (x + k) % n == if x % n + k < n then x % n + k else x % n + k - n
  {
    var q, r := x / n, x % n;
    assert x == q * n + r;
    if r + k < n {
      DivModUnique(x + k, n, q, r + k);
    } else {
      assert x + k == (q + 1) * n + (r + k - n);
      DivModUnique(x + k, n, q + 1, r + k - n);
    }
  }

  // The slots from the current index around.
  function Turned<T>(slots: seq<T>, cur: nat): (t: seq<T>)
    requires cur <= |slots|
    ensures |t| == |slots|
    ensures forall k | 0 <= k < |slots| :: t[k] == slots[if cur + k < |slots| then cur + k else cur + k - |slots|]
  {
    slots[cur..] + slots[..cur]
  }

  lemma {:induction false} TurnedMembers<T>(slots: seq<T>, cur: nat, x: T)
    requires cur <= |slots|
    ensures x in Turned(slots, cur) <==> x in slots
  {
    assert slots == slots[..cur] + slots[cur..];
  }

  // Reading the slots from the current index around gives the last n entries of the
  // unbounded log, oldest first.
  lemma {:induction false} OldestFirst<T>(log: seq<T>, n: nat, empty: T)
    requires n > 0
    ensures Turned(Slots(log, n, empty), |log| % n) == Unbounded(log, n, empty)[|log|..]
  {
    var turned, window := Turned(Slots(log, n, empty), |log| % n), Unbounded(log, n, empty)[|log|..];
    forall k | 0 <= k < n ensures turned[k] == window[k] {
      OldestAt(log, n, empty, k);
    }
  }

  lemma {:induction false} OldestAt<T>(log: seq<T>, n: nat, empty: T, k: nat)
    requires k < n
    ensures Turned(Slots(log, n, empty), |log| % n)[k] == Unbounded(log, n, empty)[|log| + k]
  {
    var slots, cur := Slots(log, n, empty), |log| % n;
    SlotHolds(log, n, empty, |log| + k);
    TurnedIndex(|log|, k, n);
    assert Turned(slots, cur)[k] == slots[if cur + k < n then cur + k else cur + k - n];
  }
}
