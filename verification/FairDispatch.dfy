/**
 Fair dispatch of server.c: drain_buffered_client_input serves buffered lines from a
 rotating cursor under a global and a per-client budget, and the poll loop spends
 one global budget per turn. A client is represented by the number of complete
 lines in its buffer and by whether it may be dispatched at all; connections that
 end in the middle of a pass are not part of this model.
 */
module FairDispatch {
  import opened Arithmetic
  import opened InputFraming
  import opened Text

  const GLOBAL_BUDGET: nat := 512

  /** Lines of all clients. */
  ghost function Total(s: seq<nat>): nat {
    if s == [] then 0 else Total(s[..|s| - 1]) + s[|s| - 1]
  }

  lemma {:induction false} TotalUpdate(s: seq<nat>, i: nat, v: nat)
    requires i < |s|
    ensures Total(s[i := v]) + s[i] == Total(s) + v
  {
    if i == |s| - 1 {
      assert s[i := v][..|s| - 1] == s[..|s| - 1];
    } else {
      TotalUpdate(s[..|s| - 1], i, v);
      assert s[i := v][..|s| - 1] == s[..|s| - 1][i := v];
    }
  }

  // ---------------------------------------------------------------- one pass

  /** What the server knows of its clients, and the lines it has served each of them so far. */
  datatype Clients = Clients(ready: seq<bool>, waiting: seq<nat>, served: seq<nat>)

  predicate Sized(c: Clients, n: nat) { |c.ready| == |c.waiting| == |c.served| == n }

  /** The most a client can be served in one pass. */
  function Share(c: Clients, i: nat): nat
    requires Sized(c, |c.ready|) && i < |c.ready|
  {
    if c.ready[i] then Min(CLIENT_BUDGET, c.waiting[i]) else 0
  }

  /** The lines the first k clients from the cursor on ask for. */
  function Demand(c: Clients, first: nat, k: nat): nat
    requires Sized(c, |c.ready|) && first < |c.ready| && k <= |c.ready|
  {
    if k == 0 then 0 else Demand(c, first, k - 1) + Share(c, Onward(first, k - 1, |c.ready|))
  }

  lemma {:induction false} DemandBound(c: Clients, first: nat, k: nat)
    requires Sized(c, |c.ready|) && first < |c.ready| && k <= |c.ready|
    ensures Demand(c, first, k) <= CLIENT_BUDGET * k
  {
    if k > 0 {
      DemandBound(c, first, k - 1);
    }
  }

  lemma {:induction false} DemandGrows(c: Clients, first: nat, k: nat, m: nat)
    requires Sized(c, |c.ready|) && first < |c.ready| && k <= m <= |c.ready|
    ensures Demand(c, first, k) <= Demand(c, first, m)
    decreases m
  {
    if k < m {
      DemandGrows(c, first, k, m - 1);
    }
  }

  /** The pass stops where the demand meets the budget, or has visited everyone. */
  ghost predicate StopsAt(c: Clients, first: nat, budget: nat, visited: nat)
    requires Sized(c, |c.ready|) && first < |c.ready|
  {
    && visited <= |c.ready|
    && (visited < |c.ready| ==> Demand(c, first, visited) >= budget)
    && (visited > 0 ==> Demand(c, first, visited - 1) < budget)
  }

  /** A client is reached in a pass exactly when those before it leave some of the budget. */
  lemma ReachedExactly(c: Clients, first: nat, budget: nat, visited: nat, i: nat)
    requires Sized(c, |c.ready|) && first < |c.ready| && StopsAt(c, first, budget, visited) && i < |c.ready|
    ensures var d := Distance(first, i, |c.ready|); d < visited <==> Demand(c, first, d) < budget
  {
    var d := Distance(first, i, |c.ready|);
    if d < visited {
      DemandGrows(c, first, d, visited - 1);
    } else {
      DemandGrows(c, first, visited, d);
    }
  }

  /**
   What a pass does: the visited clients are served their share, the last of them
   perhaps less when the budget runs out but something if it has anything, and the
   others are left alone.
   */
  ghost predicate Pass(a: Clients, b: Clients, first: nat, visited: nat, budgetLeft: bool)
    requires Sized(a, |a.ready|) && first < |a.ready|
  {
    && Sized(b, |a.ready|) && b.ready == a.ready
    && forall i :: 0 <= i < |a.ready| ==>
         && a.waiting[i] + a.served[i] == b.waiting[i] + b.served[i] && a.served[i] <= b.served[i]
         && if Distance(first, i, |a.ready|) < visited then
              && (Share(a, i) > 0 ==> b.served[i] > a.served[i])
              && b.served[i] - a.served[i] <= Share(a, i)
              && (budgetLeft || Distance(first, i, |a.ready|) + 1 < visited ==>
                  b.served[i] - a.served[i] == Share(a, i))
            else b.served[i] == a.served[i]
  }

  /** The pending flag so far: set exactly when a visited client has lines left. */
  ghost predicate Settled(c: Clients, first: nat, seen: nat, pending: bool)
    requires Sized(c, |c.ready|) && first < |c.ready|
  {
    pending <==>
      exists i :: 0 <= i < |c.ready| && c.ready[i] && Distance(first, i, |c.ready|) < seen && c.waiting[i] > 0
  }

  lemma SettledNext(b: Clients, c: Clients, first: nat, seen: nat, index: nat, pending: bool, more: bool)
    requires Sized(b, |b.ready|) && first < |b.ready| && Settled(b, first, seen, pending)
    requires index < |b.ready| && Distance(first, index, |b.ready|) == seen
    requires Sized(c, |b.ready|) && c.ready == b.ready && c.waiting == b.waiting[index := c.waiting[index]]
    requires more <==> c.ready[index] && c.waiting[index] > 0
    ensures Settled(c, first, seen + 1, pending || more)
  {
    if pending {
      var i :| 0 <= i < |b.ready| && b.ready[i] && Distance(first, i, |b.ready|) < seen && b.waiting[i] > 0;
      assert c.waiting[i] > 0;
    }
  }

  lemma SettledAll(c: Clients, first: nat, seen: nat, pending: bool)
    requires Sized(c, |c.ready|) && first < |c.ready| && Settled(c, first, seen, pending)
    ensures pending ==> exists i :: 0 <= i < |c.ready| && c.ready[i] && c.waiting[i] > 0
    ensures !pending && seen == |c.ready| ==> forall i :: 0 <= i < |c.ready| && c.ready[i] ==> c.waiting[i] == 0
  {
    if pending {
      var i :| 0 <= i < |c.ready| && c.ready[i] && Distance(first, i, |c.ready|) < seen && c.waiting[i] > 0;
    }
  }

  lemma OnwardNext(first: nat, seen: nat, n: nat)
    requires first < n && seen < n
    ensures Onward(first, seen + 1, n) == (Onward(first, seen, n) + 1) % n
  {
    NextPosition(Onward(first, seen, n), n);
  }

  lemma PassBegins(a: Clients, first: nat)
    requires Sized(a, |a.ready|) && first < |a.ready|
    ensures Pass(a, a, first, 0, true) && Pass(a, a, first, 0, false) && Settled(a, first, 0, false)
  {
  }

  lemma PassNext(a: Clients, b: Clients, c: Clients, first: nat, seen: nat, index: nat, taken: nat, budgetLeft: bool)
    requires Sized(a, |a.ready|) && first < |a.ready| && Pass(a, b, first, seen, true)
    requires index < |a.ready| && Distance(first, index, |a.ready|) == seen && taken <= b.waiting[index]
    requires c == Clients(b.ready, b.waiting[index := b.waiting[index] - taken],
              b.served[index := b.served[index] + taken])
    requires taken <= Share(b, index) && (Share(b, index) > 0 ==> taken > 0) &&
              (budgetLeft ==> taken == Share(b, index))
    ensures Pass(a, c, first, seen + 1, budgetLeft)
  {
  }

  // ---------------------------------------------------------------- turns

  /**
   From one state to a later one nobody loses service, a client with a line to
   dispatch has been served or still has one, and within the given number of steps
   from the cursor it has been served.
   */
  ghost predicate Turned(a: Clients, b: Clients, first: nat, visited: nat) {
    && Sized(a, |a.ready|) && Sized(b, |a.ready|) && first < |a.ready|
    && forall i :: 0 <= i < |a.ready| ==>
         && b.served[i] >= a.served[i]
         && (a.ready[i] && a.waiting[i] > 0 ==> b.served[i] > a.served[i] || (b.ready[i] && b.waiting[i] > 0))
         && (a.ready[i] && a.waiting[i] > 0 && Distance(first, i, |a.ready|) < visited ==> b.served[i] > a.served[i])
  }

  /** Lines arrive and handshakes complete. */
  ghost predicate Arrived(a: Clients, b: Clients) {
    && Sized(a, |a.ready|) && Sized(b, |a.ready|) && b.served == a.served
    && forall i :: 0 <= i < |a.ready| ==> b.waiting[i] >= a.waiting[i] && (a.ready[i] ==> b.ready[i])
  }

  lemma PassTurned(a: Clients, b: Clients, first: nat, visited: nat, budgetLeft: bool)
    requires Sized(a, |a.ready|) && first < |a.ready| && Pass(a, b, first, visited, budgetLeft)
    ensures Turned(a, b, first, visited)
  {
  }

  lemma ArrivedTurned(a: Clients, b: Clients, c: Clients, first: nat, visited: nat)
    requires Turned(a, b, first, visited) && Arrived(b, c)
    ensures Turned(a, c, first, visited)
  {
  }

  /** What a later pass does takes nothing back. */
  lemma TurnedOn(a: Clients, b: Clients, c: Clients, first: nat, visited: nat, start: nat, again: nat)
    requires Turned(a, b, first, visited) && Turned(b, c, start, again)
    ensures Turned(a, c, first, visited)
  {
  }

  /** Two stretches one after the other add up. */
  lemma TurnedTogether(a: Clients, b: Clients, c: Clients, first: nat, reached: nat, visited: nat)
    requires Turned(a, b, first, reached) && reached < |a.ready|
    requires Turned(b, c, Onward(first, reached, |a.ready|), visited)
    ensures Turned(a, c, first, reached + visited)
  {
    var n := |a.ready|;
    forall i | 0 <= i < n && Distance(first, i, n) < reached + visited && a.ready[i] && a.waiting[i] > 0
      ensures c.served[i] > a.served[i]
    {
      assert Distance(first, i, n) < reached ||
          Distance(Onward(first, reached, n), i, n) == Distance(first, i, n) - reached;
    }
  }

  lemma OnwardTwice(first: nat, a: nat, b: nat, n: nat)
    requires first < n && a <= n && b <= n
    ensures a + b < n ==> Onward(Onward(first, a, n), b, n) == Onward(first, a + b, n)
    ensures Onward(first, 0, n) == first
  {
  }

  lemma Small(i: nat, n: nat)
    requires i < n
    ensures i % n == i
  {
  }

  class Server {
    const waiting: array<nat>
    const ready: array<bool>
    var cursor: nat
    ghost var served: seq<nat>
    ghost var arrived: seq<nat>

    /** Every line that has arrived for a client is waiting or has been served. */
    ghost predicate Valid()
      reads this, waiting
    {
      && ready.Length == waiting.Length == |served| == |arrived|
      && forall i :: 0 <= i < waiting.Length ==> waiting[i] + served[i] == arrived[i]
    }

    ghost function Now(): Clients
      reads this, waiting, ready
    {
      Clients(ready[..], waiting[..], served)
    }

    constructor (n: nat)
      ensures Valid() && waiting.Length == n && fresh(waiting) && fresh(ready)
    {
      waiting := new nat[n](_ => 0);
      ready := new bool[n](_ => true);
      cursor := 0;
      served, arrived := seq(n, _ => 0), seq(n, _ => 0);
    }

    /** drain_buffered_client_input */
    method Drain(budget: nat) returns (pending: bool, left: nat, ghost visited: nat)
      requires Valid()
      modifies waiting, this`cursor, this`served
      ensures Valid() && left <= budget && visited <= waiting.Length
      ensures Total(waiting[..]) + (budget - left) == Total(old(waiting[..]))
      ensures waiting.Length > 0 ==>
                var first := old(cursor) % waiting.Length;
                && cursor == Onward(first, visited, waiting.Length)
                && StopsAt(old(Now()), first, budget, visited)
                && Pass(old(Now()), Now(), first, visited, left > 0)
                && left == if Demand(old(Now()), first, visited) < budget
                    then budget - Demand(old(Now()), first, visited) else 0
      ensures !pending ==> forall i :: 0 <= i < waiting.Length && ready[i] ==> waiting[i] == 0
      ensures pending ==> left == 0 || exists i :: 0 <= i < waiting.Length && ready[i] && waiting[i] > 0
    {
      hide Total, Pass, Share, Settled, Onward, Distance;
      pending, left, visited := false, budget, 0;
      var n := waiting.Length;
      if n == 0 {
        cursor := 0;
        return;
      }
      var first := cursor % n;
      var index, seen := first, 0;
      ghost var was := Now();
      PassBegins(was, first);
      OnwardTwice(first, 0, 0, n);
      while seen < n && left > 0
        invariant 0 <= seen <= n && Valid() && index == Onward(first, seen, n)
        invariant Midway(was, budget, first, seen, left, pending)
      {
        left, pending := Step(was, budget, first, seen, index, left, pending);
        OnwardNext(first, seen, n);
        index := (index + 1) % n;
        seen := seen + 1;
      }
      visited := seen;
      cursor := index;
      SettledAll(Now(), first, seen, pending);
      if left == 0 {
        pending := true;
      }
    }

    /** How far a pass has come: what is left of the budget, whom it has served, and what it will report. */
    ghost predicate Midway(was: Clients, budget: nat, first: nat, seen: nat, left: nat, pending: bool)
      reads this, waiting, ready
    {
      && Valid() && Sized(was, waiting.Length) && first < waiting.Length && seen <= waiting.Length
      && left == (if Demand(was, first, seen) < budget then budget - Demand(was, first, seen) else 0)
      && (seen > 0 ==> Demand(was, first, seen - 1) < budget)
      && Total(waiting[..]) + (budget - left) == Total(was.waiting)
      && Pass(was, Now(), first, seen, left > 0) && Settled(Now(), first, seen, pending)
    }

    /** One round of the pass. */
    method Step(ghost was: Clients, ghost budget: nat, ghost first: nat, ghost seen: nat,
                index: nat, left: nat, pending: bool)
      returns (rest: nat, flag: bool)
      requires Midway(was, budget, first, seen, left, pending) && left > 0 && seen < waiting.Length
      requires index == Onward(first, seen, waiting.Length)
      modifies waiting, this`served
      ensures Midway(was, budget, first, seen + 1, rest, flag)
    {
      hide Total, Pass, Share, Settled, Onward, Distance;
      ghost var before := Now();
      DistanceInverse(first, index, seen, waiting.Length);
      Untouched(was, before, first, seen, index);
      var more;
      rest, more := Visit(index, left);
      PassNext(was, before, Now(), first, seen, index, left - rest, rest > 0);
      SettledNext(before, Now(), first, seen, index, pending, more);
      flag := pending || more;
    }

    /** One client of a pass: its lines are processed if it may be dispatched. */
    method Visit(index: nat, left: nat) returns (rest: nat, more: bool)
      requires Valid() && index < waiting.Length && left > 0
      modifies waiting, this`served
      ensures Valid() && left - rest == Min(left, Share(old(Now()), index)) <= old(waiting[index])
      ensures waiting[..] == old(waiting[..])[index := old(waiting[index]) - (left - rest)]
      ensures served == old(served)[index := old(served[index]) + (left - rest)]
      ensures Total(waiting[..]) + (left - rest) == Total(old(waiting[..]))
      ensures more <==> ready[index] && waiting[index] > 0
    {
      hide Total;
      rest, more := left, false;
      if !ready[index] || waiting[index] == 0 {
        assert waiting[..] == old(waiting[..])[index := waiting[index]];
        assert served == old(served)[index := served[index]];
        return;
      }
      var taken := Min(Min(CLIENT_BUDGET, left), waiting[index]);
      TotalUpdate(waiting[..], index, waiting[index] - taken);
      waiting[index] := waiting[index] - taken;
      served := served[index := served[index] + taken];
      assert waiting[..] == old(waiting[..])[index := old(waiting[index]) - taken];
      rest := left - taken;
      more := waiting[index] > 0;
    }

    /** One turn of the poll loop: a pass, whatever arrives, and a second pass with what is left of the budget. */
    method Turn() returns (ghost visited: nat)
      requires Valid()
      modifies this, waiting, ready
      ensures Valid() && visited <= waiting.Length &&
                (visited == waiting.Length || visited >= GLOBAL_BUDGET / CLIENT_BUDGET)
      ensures forall i :: 0 <= i < waiting.Length ==> arrived[i] >= old(arrived)[i]
      ensures waiting.Length > 0 ==> Turned(old(Now()), Now(), old(cursor) % waiting.Length, visited)
      ensures visited < waiting.Length ==> cursor == Onward(old(cursor) % waiting.Length, visited, waiting.Length)
    {
      hide Total, Pass, Turned, Demand, Arrived;
      var n := waiting.Length;
      ghost var first := if n > 0 then cursor % n else 0;
      var pending, left;
      pending, left, visited := Drain(GLOBAL_BUDGET);
      ghost var mid := Now();
      if n > 0 {
        DemandBound(old(Now()), first, visited);
        PassTurned(old(Now()), mid, first, visited, left > 0);
      }
      Arrive();
      ghost var later := Now();
      if n > 0 {
        ArrivedTurned(old(Now()), mid, later, first, visited);
      }
      if left > 0 {
        ghost var start := if n > 0 then cursor % n else 0;
        var unused, rest;
        ghost var again;
        unused, rest, again := Drain(left);
        if n > 0 {
          PassTurned(later, Now(), start, again, rest > 0);
          TurnedOn(old(Now()), later, Now(), first, visited, start, again);
        }
      }
    }

    /** Any complete lines may have been read for any client, and handshakes may have been completed. */
    method Arrive()
      requires Valid()
      modifies waiting, ready, this`arrived
      ensures Valid() && Arrived(old(Now()), Now())
      ensures forall i :: 0 <= i < waiting.Length ==> arrived[i] >= old(arrived)[i]
    {
      for i := 0 to waiting.Length
        invariant Valid() && forall k :: 0 <= k < waiting.Length ==> arrived[k] >= old(arrived)[k]
        invariant forall k :: 0 <= k < waiting.Length ==> waiting[k] >= old(waiting[k]) && (old(ready[k]) ==> ready[k])
      {
        var more: int, done: bool := *, *;
        if more > 0 {
          waiting[i] := waiting[i] + more;
          arrived := arrived[i := arrived[i] + more];
        }
        if done {
          ready[i] := true;
        }
      }
    }

    /**
     Any run of turns, with any arrivals: whoever had a line to dispatch has been
     served by the time 16 clients per turn add up to all of them.
     */
    method Run(rounds: nat)
      requires Valid()
      modifies this, waiting, ready
      ensures Valid() && forall i :: 0 <= i < waiting.Length ==> arrived[i] >= old(arrived)[i]
      ensures rounds * (GLOBAL_BUDGET / CLIENT_BUDGET) >= waiting.Length ==>
                forall i :: 0 <= i < waiting.Length && old(ready[i]) && old(waiting[i]) > 0 ==>
                    served[i] > old(served)[i]
    {
      hide Onward, Distance, Turned;
      var n := waiting.Length;
      if n == 0 {
        return;
      }
      ghost var first, was := cursor % n, Now();
      ghost var reached: nat, whole := 0, false;
      TurnedNowhere(was, first);
      OnwardTwice(first, 0, 0, n);
      for k := 0 to rounds
        invariant Valid() && forall i :: 0 <= i < n ==> arrived[i] >= old(arrived)[i]
        invariant reached <= n && Turned(was, Now(), first, reached)
        invariant whole ==> reached == n
        invariant !whole ==> 16 * k <= reached < n
        invariant !whole ==> cursor % n == Onward(first, reached, n)
      {
        ghost var before, start := Now(), cursor % n;
        ghost var visited := Turn();
        if whole {
          TurnedOn(was, before, Now(), first, reached, start, visited);
        } else {
          TurnedTogether(was, before, Now(), first, reached, visited);
          OnwardTwice(first, reached, visited, n);
          TurnedLess(was, Now(), first, reached + visited, n);
          whole := reached + visited >= n;
          reached := Min(reached + visited, n);
          if !whole {
            Small(cursor, n);
          }
        }
      }
      if reached == n {
        TurnedAll(was, Now(), first);
      }
    }
  }

  /** A client that has not been visited yet asks for what it asked for at the start. */
  lemma Untouched(a: Clients, b: Clients, first: nat, seen: nat, index: nat)
    requires Sized(a, |a.ready|) && first < |a.ready| && Pass(a, b, first, seen, true)
    requires index < |a.ready| && Distance(first, index, |a.ready|) >= seen
    ensures Share(b, index) == Share(a, index) && b.waiting[index] == a.waiting[index]
  {
  }

  lemma TurnedNowhere(a: Clients, first: nat)
    requires Sized(a, |a.ready|) && first < |a.ready|
    ensures Turned(a, a, first, 0)
  {
  }

  lemma TurnedLess(a: Clients, b: Clients, first: nat, visited: nat, fewer: nat)
    requires Turned(a, b, first, visited)
    ensures fewer <= visited ==> Turned(a, b, first, fewer)
  {
  }

  lemma TurnedAll(a: Clients, b: Clients, first: nat)
    requires Turned(a, b, first, |a.ready|)
    ensures forall i :: 0 <= i < |a.ready| && a.ready[i] && a.waiting[i] > 0 ==> b.served[i] > a.served[i]
  {
  }

  // ---------------------------------------------------------------- a busy server

  lemma {:induction false} FullDemand(c: Clients, first: nat, k: nat)
    requires Sized(c, |c.ready|) && first < |c.ready| && k <= |c.ready|
    requires forall i :: 0 <= i < |c.ready| ==> c.ready[i] && c.waiting[i] >= CLIENT_BUDGET
    ensures Demand(c, first, k) == CLIENT_BUDGET * k
  {
    if k > 0 {
      FullDemand(c, first, k - 1);
    }
  }

  /** With more than 16 busy clients a pass leaves the others untouched, whatever is in their buffers. */
  method BusyPass(server: Server) returns (ghost visited: nat)
    requires server.Valid() && server.waiting.Length > 16
    requires forall i :: 0 <= i < server.waiting.Length ==> server.ready[i] && server.waiting[i] >= CLIENT_BUDGET
    modifies server, server.waiting
    ensures visited == 16
    ensures forall i :: 0 <= i < server.waiting.Length &&
                        Distance(old(server.cursor) % server.waiting.Length, i, server.waiting.Length) >= 16
                        ==> server.waiting[i] == old(server.waiting[i])
  {
    hide Total, Demand, Distance;
    ghost var was, first := server.Now(), server.cursor % server.waiting.Length;
    var pending, left;
    pending, left, visited := server.Drain(GLOBAL_BUDGET);
    FullDemand(was, first, 16);
    FullDemand(was, first, visited);
    if visited > 0 {
      FullDemand(was, first, visited - 1);
    }
    assert forall i :: 0 <= i < server.waiting.Length ==> server.Now().waiting[i] == server.waiting[i];
  }
}
