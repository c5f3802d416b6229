// Port allocation: Server.add_board.
module PortAllocation {
  import opened Options

  const ENTRY_PORT: int := 10000
  const MAX_BIND_RETRIES: nat := 5

  // Which ports can be bound at the time of a call.
  type Bindable = int -> bool

  // The first of the given number of ports from `port` on that can be bound.
  function FirstBindable(bindable: Bindable, port: int, tries: nat): Option<int>
    decreases tries
  {
    if tries == 0 then None
    else if bindable(port) then Some(port)
    else FirstBindable(bindable, port + 1, tries - 1)
  }

  lemma {:induction false} FirstBindableExact(bindable: Bindable, port: int, tries: nat)
    ensures match FirstBindable(bindable, port, tries)
            case Some(p) => port <= p < port + tries && bindable(p) && forall q | port <= q < p :: !bindable(q)
            case None => forall q | port <= q < port + tries :: !bindable(q)
    decreases tries
  {
    if tries > 0 && !bindable(port) { FirstBindableExact(bindable, port + 1, tries - 1); }
  }

  predicate Increasing(s: seq<int>) { forall i, j | 0 <= i < j < |s| :: s[i] < s[j] }

  class Server {
    var boards: map<string, int>     // port_this_side by board address
    var lastUsedPort: int
    ghost var granted: seq<int>      // every port handed out, in order

    ghost predicate Valid()
      reads this
    {
      && Increasing([ENTRY_PORT] + granted)
      && lastUsedPort == ([ENTRY_PORT] + granted)[|granted|]
      && (forall b | b in boards :: boards[b] in granted)
      && (forall b, c | b in boards && c in boards && b != c :: boards[b] != boards[c])
    }

    constructor ()
      ensures Valid() && boards == map[] && lastUsedPort == ENTRY_PORT == 10000 && granted == []
    {
      boards := map[];
      lastUsedPort := ENTRY_PORT;
      granted := [];
    }

    // A board gets the first bindable port among the next five and no two boards
    // share one; a failed call changes nothing.
    method AddBoard(ipv4: string, bindable: Bindable) returns (port: Option<int>)
      requires Valid()
      modifies this
      ensures Valid()
      ensures port == FirstBindable(bindable, old(lastUsedPort) + 1, MAX_BIND_RETRIES)
      ensures port.Some? ==> old(lastUsedPort) + 1 <= port.value <= old(lastUsedPort) + 5 && bindable(port.value)
      ensures forall q | old(lastUsedPort) < q <= old(lastUsedPort) + 5 && (port.None? || q < port.value) :: !bindable(q)
      ensures port.None? ==> lastUsedPort == old(lastUsedPort) && boards == old(boards) && granted == old(granted)
      ensures port.Some? ==>
                lastUsedPort == port.value && boards == old(boards)[ipv4 := port.value] && granted == old(granted) + [port.value]
    {
      FirstBindableExact(bindable, lastUsedPort + 1, MAX_BIND_RETRIES);
      var candidate := lastUsedPort + 1;
      var notBound := true;
      var retries := 0;
      while notBound && retries < MAX_BIND_RETRIES
        invariant 0 <= retries <= MAX_BIND_RETRIES
        invariant candidate == lastUsedPort + 1 + retries
        invariant if notBound
                  then FirstBindable(bindable, lastUsedPort + 1, MAX_BIND_RETRIES)
                       == FirstBindable(bindable, candidate, MAX_BIND_RETRIES - retries)
                  else retries < MAX_BIND_RETRIES
                       && FirstBindable(bindable, lastUsedPort + 1, MAX_BIND_RETRIES) == Some(candidate)
        decreases notBound, MAX_BIND_RETRIES - retries
      {
        if bindable(candidate) {
          notBound := false;
        } else {
          candidate := candidate + 1;
          retries := retries + 1;
        }
      }
      if retries >= MAX_BIND_RETRIES {
        return None;
      }
      ghost var before := [ENTRY_PORT] + granted;
      assert [ENTRY_PORT] + (granted + [candidate]) == before + [candidate];
      forall g | g in granted ensures g < candidate {
        var i :| 0 <= i < |granted| && granted[i] == g;
        assert before[i + 1] == g;
      }
      lastUsedPort := candidate;
      boards := boards[ipv4 := candidate];
      granted := granted + [candidate];
      return Some(candidate);
    }
  }
}
