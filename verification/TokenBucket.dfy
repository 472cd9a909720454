/**
 The command budgets of commands/dispatch.c: the per-client flood budget, and the
 per-client and server-wide budgets every expensive command is charged to.
 */
module TokenBucket {

  const ULONG_RANGE: nat := 0x1_0000_0000_0000_0000
  const COMMAND_BURST: nat := 20
  const COMMAND_RATE: nat := 4
  const GLOBAL_BURST: nat := 200
  const GLOBAL_RATE: nat := 40
  const FLOOD_BURST: nat := 80
  const FLOOD_RATE: nat := 20
  const VIOLATION_WINDOW: int := 5
  const VIOLATIONS_BEFORE_DISCONNECT: nat := 3

  /** Remaining tokens and the clock reading they were last refilled at; 0 means never. */
  datatype Bucket = Bucket(tokens: nat, updated: int)

  /** What a stretch of time earns at a rate. */
  function Earned(elapsed: nat, rate: nat): nat { elapsed * rate }

  /** An unsigned long. */
  function Wrapped(n: nat): nat { n % ULONG_RANGE }

  /** Tokens after a refill; the product is an unsigned long and wraps. */
  function Refill(b: Bucket, now: int, burst: nat, rate: nat): (r: Bucket)
    ensures b.tokens <= burst ==> r.tokens <= burst
    ensures b.updated > 0 ==> b.updated <= r.updated
  {
    if b.updated == 0 then Bucket(burst, now)
    else if now <= b.updated then b
    else
      var refill := Wrapped(Earned(now - b.updated, rate));
      Bucket(if b.tokens >= burst || refill >= burst - b.tokens then burst else b.tokens + refill, now)
  }

  function Charge(b: Bucket, cost: nat): Bucket {
    if b.tokens >= cost then b.(tokens := b.tokens - cost) else b
  }

  /** The product grows with the elapsed time and the wrapped one never exceeds it. */
  lemma RefillBound(b: Bucket, now: int, burst: nat, rate: nat)
    requires b.updated != 0 && b.tokens <= burst
    ensures Refill(b, now, burst, rate).tokens <= b.tokens + rate * (Refill(b, now, burst, rate).updated - b.updated)
    ensures Refill(b, now, burst, rate).updated >= b.updated
  {
    if now > b.updated {
      hide Wrapped;
      WrapShrinks(Earned(now - b.updated, rate));
    }
  }

  /**
   A refill in every case, short of a wrapped product: a bucket never used is filled
   to the burst, a clock that has not moved on adds nothing, and otherwise exactly
   what the elapsed time has earned is added, up to the burst.
   */
  lemma RefillExact(b: Bucket, now: int, burst: nat, rate: nat)
    requires b.tokens <= burst
    requires b.updated != 0 && now > b.updated ==> (now - b.updated) * rate < ULONG_RANGE
    ensures b.updated == 0 ==> Refill(b, now, burst, rate) == Bucket(burst, now)
    ensures b.updated != 0 && now <= b.updated ==> Refill(b, now, burst, rate) == b
    ensures b.updated != 0 && now > b.updated ==>
              var earned := b.tokens + (now - b.updated) * rate;
              Refill(b, now, burst, rate) == Bucket(if earned < burst then earned else burst, now)
  {
    hide Wrapped;
    if b.updated != 0 && now > b.updated {
      NoWrap(Earned(now - b.updated, rate));
    }
  }

  lemma NoWrap(n: nat)
    requires n < ULONG_RANGE
    ensures Wrapped(n) == n
  {
  }

  /** Whoever waits until the burst has been earned again is admitted, whatever the budget was. */
  lemma WaitingHelps(b: Bucket, c: Call, burst: nat, rate: nat)
    requires b.updated > 0 && b.tokens <= burst && c.cost <= burst && c.now > b.updated
    requires burst <= Earned(c.now - b.updated, rate) < ULONG_RANGE
    ensures Admits(b, c, burst, rate)
  {
    hide Wrapped;
    RefillExact(b, c.now, burst, rate);
  }

  lemma WrapShrinks(n: nat)
    ensures Wrapped(n) <= n
  {
  }

  // ---------------------------------------------------------------- one budget over a run

  /** A command that is charged: the clock reading it arrives at and its cost. */
  datatype Call = Call(now: int, cost: nat)

  function Step(b: Bucket, c: Call, burst: nat, rate: nat): Bucket {
    Charge(Refill(b, c.now, burst, rate), c.cost)
  }

  predicate Admits(b: Bucket, c: Call, burst: nat, rate: nat) {
    Refill(b, c.now, burst, rate).tokens >= c.cost
  }

  function After(b: Bucket, calls: seq<Call>, burst: nat, rate: nat): Bucket
    decreases |calls|
  {
    if calls == [] then b else After(Step(b, calls[0], burst, rate), calls[1..], burst, rate)
  }

  /** Total cost admitted during a run. */
  function Admitted(b: Bucket, calls: seq<Call>, burst: nat, rate: nat): nat
    decreases |calls|
  {
    if calls == [] then 0
    else
      (if Admits(b, calls[0], burst, rate) then calls[0].cost else 0)
      + Admitted(Step(b, calls[0], burst, rate), calls[1..], burst, rate)
  }

  lemma StepBound(b: Bucket, c: Call, burst: nat, rate: nat)
    requires b.updated > 0 && b.tokens <= burst
    ensures var s := Step(b, c, burst, rate);
            && s.updated >= b.updated && s.tokens <= burst
            && s.tokens + (if Admits(b, c, burst, rate) then c.cost else 0) <= b.tokens + rate * (s.updated - b.updated)
  {
    RefillBound(b, c.now, burst, rate);
  }

  /**
   The rate bound: from any stamped bucket on, whatever the clock does, the cost
   admitted is at most the tokens in hand plus the rate times the growth of the
   stored stamp.
   */
  lemma {:induction false} RateBound(b: Bucket, calls: seq<Call>, burst: nat, rate: nat)
    requires b.updated > 0 && b.tokens <= burst
    ensures var s := After(b, calls, burst, rate);
            && s.updated >= b.updated && s.tokens <= burst
            && s.tokens + Admitted(b, calls, burst, rate) <= b.tokens + rate * (s.updated - b.updated)
    decreases |calls|
  {
    if calls != [] {
      var next := Step(b, calls[0], burst, rate);
      StepBound(b, calls[0], burst, rate);
      RateBound(next, calls[1..], burst, rate);
      var s := After(b, calls, burst, rate);
      assert rate * (s.updated - b.updated) == rate * (s.updated - next.updated) + rate * (next.updated - b.updated);
    }
  }

  /** A clock that shows nothing later than the stamp. */
  ghost predicate Still(calls: seq<Call>, stamp: int) {
    forall i :: 0 <= i < |calls| ==> calls[i].now <= stamp
  }

  /** While the clock stands still the tokens fall by exactly what is admitted: refusals cost nothing. */
  lemma {:induction false} ChargedExactly(b: Bucket, calls: seq<Call>, burst: nat, rate: nat)
    requires b.updated > 0 && b.tokens <= burst && Still(calls, b.updated)
    ensures After(b, calls, burst, rate).tokens + Admitted(b, calls, burst, rate) == b.tokens
    ensures After(b, calls, burst, rate).updated == b.updated
    decreases |calls|
  {
    if calls != [] {
      var next := Step(b, calls[0], burst, rate);
      assert Still(calls[1..], next.updated);
      ChargedExactly(next, calls[1..], burst, rate);
    }
  }

  ghost predicate WithinRate(b: Bucket, calls: seq<Call>, burst: nat, rate: nat, since: int) {
    Admitted(b, calls, burst, rate) <= burst + rate * (After(b, calls, burst, rate).updated - since)
  }

  const FRESH: Bucket := Bucket(0, 0)

  function Zeros(n: nat): seq<Call> { seq(n, _ => Call(0, 1)) }

  /** At clock reading zero the stamp stays zero and every call finds a full bucket. */
  lemma {:induction false} ZeroStampUnlimited(tokens: nat, n: nat, burst: nat, rate: nat)
    requires burst > 0
    ensures Admitted(Bucket(tokens, 0), Zeros(n), burst, rate) == n
    ensures After(Bucket(tokens, 0), Zeros(n), burst, rate).updated == 0
    decreases n
  {
    if n > 0 {
      assert Zeros(n)[1..] == Zeros(n - 1);
      ZeroStampUnlimited(burst - 1, n - 1, burst, rate);
    }
  }

  /**
   A new client's budget is bounded on every run exactly when the first clock
   reading is after the epoch: zero is also the mark of a bucket never filled.
   */
  lemma FreshBoundExact(first: Call, burst: nat, rate: nat)
    requires burst > 0
    ensures (forall rest: seq<Call> :: WithinRate(FRESH, [first] + rest, burst, rate, first.now)) <==> first.now > 0
  {
    if first.now > 0 {
      forall rest: seq<Call> ensures WithinRate(FRESH, [first] + rest, burst, rate, first.now) {
        FreshBound(first, rest, burst, rate);
      }
    } else {
      var n := burst + rate * (0 - first.now) + 1;
      var rest := [Call(0, 1)] + Zeros(n);
      FreshUnbounded(first, n, burst, rate);
      assert !WithinRate(FRESH, [first] + rest, burst, rate, first.now);
    }
  }

  lemma FreshBound(first: Call, rest: seq<Call>, burst: nat, rate: nat)
    requires first.now > 0
    ensures WithinRate(FRESH, [first] + rest, burst, rate, first.now)
  {
    var calls := [first] + rest;
    var next := Step(FRESH, first, burst, rate);
    assert calls[1..] == rest;
    RateBound(next, rest, burst, rate);
  }

  lemma FreshUnbounded(first: Call, n: nat, burst: nat, rate: nat)
    requires first.now <= 0 && burst > 0
    ensures var calls := [first] + ([Call(0, 1)] + Zeros(n));
            Admitted(FRESH, calls, burst, rate) >= n && After(FRESH, calls, burst, rate).updated == 0
  {
    var tail := [Call(0, 1)] + Zeros(n);
    var calls := [first] + tail;
    var one := Step(FRESH, first, burst, rate);
    var two := Step(one, Call(0, 1), burst, rate);
    assert calls[1..] == tail && tail[1..] == Zeros(n);
    assert two.updated == 0;
    ZeroStampUnlimited(two.tokens, n, burst, rate);
  }

  // ---------------------------------------------------------------- two budgets over a run

  /** A command of some client; operators and free commands are not charged. */
  datatype Request = Request(client: nat, now: int, cost: nat, exempt: bool)

  /** The command buckets of all clients and the server's own. */
  datatype Budgets = Budgets(clients: map<nat, Bucket>, server: Bucket)

  function Of(s: Budgets, client: nat): Bucket {
    if client in s.clients then s.clients[client] else FRESH
  }

  predicate Charged(r: Request) { r.cost != 0 && !r.exempt }

  /** Both refilled buckets must cover the cost. */
  predicate Affordable(client: Bucket, server: Bucket, now: int, cost: nat) {
    && Refill(client, now, COMMAND_BURST, COMMAND_RATE).tokens >= cost
    && Refill(server, now, GLOBAL_BURST, GLOBAL_RATE).tokens >= cost
  }

  /** command_expensive_allow on the two buckets involved: charge both or neither. */
  function Spend(client: Bucket, server: Bucket, now: int, cost: nat): (r: (Bucket, Bucket)) {
    var c := Refill(client, now, COMMAND_BURST, COMMAND_RATE);
    var g := Refill(server, now, GLOBAL_BURST, GLOBAL_RATE);
    if Affordable(client, server, now, cost)
    then (c.(tokens := c.tokens - cost), g.(tokens := g.tokens - cost))
    else (c, g)
  }

  /**
   Both or neither: a charge leaves both buckets exactly the cost below their refills,
   and happens exactly when both refills cover it; otherwise both are just refilled.
   */
  lemma BothOrNeither(client: Bucket, server: Bucket, now: int, cost: nat)
    ensures var (c, g) := (Refill(client, now, 20, 4), Refill(server, now, 200, 40));
            var (c', g') := Spend(client, server, now, cost);
            if c.tokens >= cost && g.tokens >= cost then
              && c'.tokens + cost == c.tokens && g'.tokens + cost == g.tokens
              && c'.updated == c.updated && g'.updated == g.updated
            else c' == c && g' == g
  {
  }

  predicate Allows(s: Budgets, r: Request) {
    Charged(r) ==> Affordable(Of(s, r.client), s.server, r.now, r.cost)
  }

  function Serve(s: Budgets, r: Request): Budgets {
    if !Charged(r) then s
    else
      var (c, g) := Spend(Of(s, r.client), s.server, r.now, r.cost);
      Budgets(s.clients[r.client := c], g)
  }

  function ServeAll(s: Budgets, rs: seq<Request>): Budgets
    decreases |rs|
  {
    if rs == [] then s else ServeAll(Serve(s, rs[0]), rs[1..])
  }

  /** Cost charged for one request. */
  function Paid(s: Budgets, r: Request): nat {
    if Charged(r) && Allows(s, r) then r.cost else 0
  }

  /** Cost charged during a run, to everyone or to one client. */
  function PaidByAll(s: Budgets, rs: seq<Request>): nat
    decreases |rs|
  {
    if rs == [] then 0 else Paid(s, rs[0]) + PaidByAll(Serve(s, rs[0]), rs[1..])
  }

  function PaidBy(s: Budgets, rs: seq<Request>, client: nat): nat
    decreases |rs|
  {
    if rs == [] then 0
    else (if rs[0].client == client then Paid(s, rs[0]) else 0) + PaidBy(Serve(s, rs[0]), rs[1..], client)
  }

  lemma Telescope(rate: nat, a: int, b: int, c: int)
    ensures rate * (c - a) == rate * (c - b) + rate * (b - a)
  {
  }

  lemma ServerStepBound(s: Budgets, r: Request)
    requires s.server.updated > 0 && s.server.tokens <= GLOBAL_BURST
    ensures var g := Serve(s, r).server;
            && g.updated >= s.server.updated && g.tokens <= GLOBAL_BURST
            && g.tokens + Paid(s, r) <= s.server.tokens + GLOBAL_RATE * (g.updated - s.server.updated)
  {
    RefillBound(s.server, r.now, GLOBAL_BURST, GLOBAL_RATE);
  }

  /** Server-wide: all clients together stay within the burst plus 40 for every second of stamp growth. */
  lemma {:induction false} ServerRateBound(s: Budgets, rs: seq<Request>)
    requires s.server.updated > 0 && s.server.tokens <= GLOBAL_BURST
    ensures var g := ServeAll(s, rs).server;
            && g.updated >= s.server.updated
            && g.tokens + PaidByAll(s, rs) <= s.server.tokens + GLOBAL_RATE * (g.updated - s.server.updated)
    decreases |rs|
  {
    if rs != [] {
      var next := Serve(s, rs[0]);
      ServerStepBound(s, rs[0]);
      ServerRateBound(next, rs[1..]);
      Telescope(GLOBAL_RATE, s.server.updated, next.server.updated, ServeAll(s, rs).server.updated);
    }
  }

  lemma ClientStepBound(s: Budgets, r: Request, client: nat)
    requires Of(s, client).updated > 0 && Of(s, client).tokens <= COMMAND_BURST
    ensures var b, c := Of(s, client), Of(Serve(s, r), client);
            && c.updated >= b.updated && c.tokens <= COMMAND_BURST
            && c.tokens + (if r.client == client then Paid(s, r) else 0) <= b.tokens +
                COMMAND_RATE * (c.updated - b.updated)
  {
    RefillBound(Of(s, client), r.now, COMMAND_BURST, COMMAND_RATE);
  }

  /** Per client: whatever the others do, one client stays within its burst plus 4 per second of stamp growth. */
  lemma {:induction false} ClientRateBound(s: Budgets, rs: seq<Request>, client: nat)
    requires Of(s, client).updated > 0 && Of(s, client).tokens <= COMMAND_BURST
    ensures var b, c := Of(s, client), Of(ServeAll(s, rs), client);
            && c.updated >= b.updated
            && c.tokens + PaidBy(s, rs, client) <= b.tokens + COMMAND_RATE * (c.updated - b.updated)
    decreases |rs|
  {
    if rs != [] {
      var next := Serve(s, rs[0]);
      ClientStepBound(s, rs[0], client);
      ClientRateBound(next, rs[1..], client);
      Telescope(COMMAND_RATE, Of(s, client).updated, Of(next, client).updated, Of(ServeAll(s, rs), client).updated);
    }
  }

  /** No request comes later than the stamps. */
  ghost predicate Standing(s: Budgets, rs: seq<Request>) {
    && s.server.updated > 0
    && forall i :: 0 <= i < |rs| ==>
         && rs[i].now <= s.server.updated
         && Of(s, rs[i].client).updated > 0 && rs[i].now <= Of(s, rs[i].client).updated
  }

  lemma StandingStep(s: Budgets, rs: seq<Request>)
    requires rs != [] && Standing(s, rs)
    ensures var next := Serve(s, rs[0]);
            && Standing(next, rs[1..])
            && next.server == Bucket(s.server.tokens - Paid(s, rs[0]), s.server.updated)
            && forall c :: Of(next, c) ==
                 if c == rs[0].client then Bucket(Of(s, c).tokens - Paid(s, rs[0]), Of(s, c).updated) else Of(s, c)
  {
    hide Wrapped, Earned;
  }

  /**
   While the clock stands still the server's tokens fall by exactly what all clients
   pay and every client's by exactly what it pays: a refused request costs neither.
   */
  lemma {:induction false} PaidExactly(s: Budgets, rs: seq<Request>, client: nat)
    requires Standing(s, rs)
    ensures ServeAll(s, rs).server.tokens + PaidByAll(s, rs) == s.server.tokens
    ensures ServeAll(s, rs).server.updated == s.server.updated
    ensures Of(ServeAll(s, rs), client).tokens + PaidBy(s, rs, client) == Of(s, client).tokens
    ensures Of(ServeAll(s, rs), client).updated == Of(s, client).updated
    decreases |rs|
  {
    if rs != [] {
      hide Serve, Paid, Standing;
      StandingStep(s, rs);
      PaidExactly(Serve(s, rs[0]), rs[1..], client);
    }
  }

  // ---------------------------------------------------------------- two budgets from the start

  ghost predicate ServerWithin(s: Budgets, rs: seq<Request>, since: int) {
    PaidByAll(s, rs) <= GLOBAL_BURST + GLOBAL_RATE * (ServeAll(s, rs).server.updated - since)
  }

  ghost predicate ClientWithin(s: Budgets, rs: seq<Request>, client: nat, since: int) {
    PaidBy(s, rs, client) <= COMMAND_BURST + COMMAND_RATE * (Of(ServeAll(s, rs), client).updated - since)
  }

  /** A server that has charged nobody yet keeps its bound from the first charged request on. */
  lemma ServerBoundFromStart(s: Budgets, first: Request, rest: seq<Request>)
    requires s.server.updated == 0 && Charged(first) && first.now > 0
    ensures ServerWithin(s, [first] + rest, first.now)
  {
    var rs := [first] + rest;
    assert rs[1..] == rest;
    ServerRateBound(Serve(s, first), rest);
  }

  /** So does a client that has not been charged yet, whatever the server and the others have done before. */
  lemma ClientBoundFromStart(s: Budgets, first: Request, rest: seq<Request>)
    requires Of(s, first.client).updated == 0 && Charged(first) && first.now > 0
    ensures ClientWithin(s, [first] + rest, first.client, first.now)
  {
    var rs := [first] + rest;
    assert rs[1..] == rest;
    ClientRateBound(Serve(s, first), rest, first.client);
  }

  /** Requests of one client at clock reading zero. */
  function AtZero(client: nat, n: nat): seq<Request> { seq(n, _ => Request(client, 0, 1, false)) }

  /** While both stamps are zero every such request is paid for, and the stamps stay zero. */
  lemma {:induction false} ZeroStampsUnlimited(s: Budgets, client: nat, n: nat)
    requires s.server.updated == 0 && Of(s, client).updated == 0
    ensures PaidByAll(s, AtZero(client, n)) == n == PaidBy(s, AtZero(client, n), client)
    ensures ServeAll(s, AtZero(client, n)).server.updated == 0 == Of(ServeAll(s, AtZero(client, n)), client).updated
    decreases n
  {
    if n > 0 {
      assert AtZero(client, n)[1..] == AtZero(client, n - 1);
      ZeroStampsUnlimited(Serve(s, AtZero(client, n)[0]), client, n - 1);
    }
  }

  /** A run that starts at or before the epoch and then stays at reading zero pays for everything. */
  lemma UnboundedFromEpoch(s: Budgets, first: Request, n: nat)
    requires s.server.updated == 0 && Of(s, first.client).updated == 0 && Charged(first) && first.now <= 0
    ensures var rs := [first] + AtZero(first.client, n + 1);
            && PaidByAll(s, rs) >= n && PaidBy(s, rs, first.client) >= n
            && ServeAll(s, rs).server.updated == 0 == Of(ServeAll(s, rs), first.client).updated
  {
    var tail := AtZero(first.client, n + 1);
    var rs := [first] + tail;
    var one := Serve(s, first);
    var two := Serve(one, tail[0]);
    assert rs[1..] == tail && tail[1..] == AtZero(first.client, n);
    ZeroStampsUnlimited(two, first.client, n);
  }

  /**
   While neither the server nor the client has been charged, both bounds of the
   expensive-command budgets hold on every run exactly when the first charged request
   comes after the epoch.
   */
  lemma BudgetBoundsExact(s: Budgets, first: Request)
    requires s.server.updated == 0 && Of(s, first.client).updated == 0 && Charged(first)
    ensures (forall rest: seq<Request> :: ServerWithin(s, [first] + rest, first.now)) <==> first.now > 0
    ensures (forall rest: seq<Request> :: ClientWithin(s, [first] + rest, first.client, first.now)) <==> first.now > 0
  {
    hide ServeAll, PaidByAll, PaidBy;
    if first.now > 0 {
      forall rest: seq<Request>
        ensures ServerWithin(s, [first] + rest, first.now) && ClientWithin(s, [first] + rest, first.client, first.now)
      {
        ServerBoundFromStart(s, first, rest);
        ClientBoundFromStart(s, first, rest);
      }
    } else {
      var n := GLOBAL_BURST + GLOBAL_RATE * (0 - first.now) + 1;
      UnboundedFromEpoch(s, first, n);
      var rest := AtZero(first.client, n + 1);
      assert !ServerWithin(s, [first] + rest, first.now);
      assert !ClientWithin(s, [first] + rest, first.client, first.now);
    }
  }

  /** Requests that are not charged leave every budget as it was. */
  lemma UnchargedIgnored(s: Budgets, r: Request, rest: seq<Request>, client: nat)
    requires r.cost == 0 || r.exempt
    ensures ServeAll(s, [r] + rest) == ServeAll(s, rest) && PaidByAll(s, [r] + rest) == PaidByAll(s, rest)
    ensures PaidBy(s, [r] + rest, client) == PaidBy(s, rest, client)
  {
    assert ([r] + rest)[1..] == rest;
  }

  // ---------------------------------------------------------------- the code

  class Server {
    var globalTokens: nat
    var globalUpdated: int

    constructor ()
      ensures Budget() == FRESH
    {
      globalTokens, globalUpdated := 0, 0;
    }

    function Budget(): Bucket
      reads this
    {
      Bucket(globalTokens, globalUpdated)
    }
  }

  class Client {
    const exempt: bool  // operator or network administrator
    var commandTokens: nat
    var commandUpdated: int
    var floodTokens: nat
    var floodUpdated: int
    var violationWindow: int
    var violationCount: nat

    constructor (exempt: bool)
      ensures Valid() && Flood() == FRESH && Command() == FRESH && this.exempt == exempt
    {
      this.exempt := exempt;
      commandTokens, commandUpdated, floodTokens, floodUpdated := 0, 0, 0, 0;
      violationWindow, violationCount := 0, 0;
    }

    function Flood(): Bucket
      reads this
    {
      Bucket(floodTokens, floodUpdated)
    }

    function Command(): Bucket
      reads this
    {
      Bucket(commandTokens, commandUpdated)
    }

    predicate Valid()
      reads this
    {
      floodTokens <= FLOOD_BURST && commandTokens <= COMMAND_BURST
    }

    /**
     general_flood_allow: 1 admitted, -1 refused, 0 refused for the third time in
     one violation window, which ends the connection.
     */
    method GeneralFloodAllow(now: int, cost: nat) returns (rc: int)
      requires Valid()
      modifies this
      ensures Valid() && Command() == old(Command())
      ensures cost == 0 || exempt ==> rc == 1 && Flood() == old(Flood())
      ensures cost != 0 && !exempt ==>
                && Flood() == Step(old(Flood()), Call(now, cost), FLOOD_BURST, FLOOD_RATE)
                && (rc == 1 <==> Admits(old(Flood()), Call(now, cost), FLOOD_BURST, FLOOD_RATE))
      ensures rc == 1 ==> violationCount == old(violationCount) && violationWindow == old(violationWindow)
      ensures rc != 1 ==>
                var restart := old(violationWindow) == 0 || now - old(violationWindow) >= VIOLATION_WINDOW;
                && violationWindow == (if restart then now else old(violationWindow))
                && violationCount == (if restart then 1 else old(violationCount) + 1)
                && rc == if violationCount >= VIOLATIONS_BEFORE_DISCONNECT then 0 else -1
    {
      if cost == 0 || exempt {
        return 1;
      }
      if floodUpdated == 0 {
        floodUpdated, floodTokens := now, FLOOD_BURST;
      } else if now > floodUpdated {
        var elapsed := now - floodUpdated;
        var refill := Wrapped(Earned(elapsed, FLOOD_RATE));
        if refill >= FLOOD_BURST - floodTokens {
          floodTokens := FLOOD_BURST;
        } else {
          floodTokens := floodTokens + refill;
        }
        floodUpdated := now;
      }
      if floodTokens >= cost {
        floodTokens := floodTokens - cost;
        return 1;
      }
      if violationWindow == 0 || now - violationWindow >= VIOLATION_WINDOW {
        violationWindow, violationCount := now, 1;
      } else {
        violationCount := violationCount + 1;
      }
      rc := if violationCount >= VIOLATIONS_BEFORE_DISCONNECT then 0 else -1;
    }

    /** command_expensive_allow: refill both budgets, then charge both or neither. */
    method CommandExpensiveAllow(server: Server, now: int, cost: nat) returns (ok: bool)
      requires Valid()
      modifies this`commandTokens, this`commandUpdated, server
      ensures Valid()
      ensures cost == 0 || exempt ==> ok && Command() == old(Command()) && server.Budget() == old(server.Budget())
      ensures cost != 0 && !exempt ==>
                && (Command(), server.Budget()) == Spend(old(Command()), old(server.Budget()), now, cost)
                && var c, g := Refill(old(Command()), now, 20, 4), Refill(old(server.Budget()), now, 200, 40);
                   && (ok <==> c.tokens >= cost && g.tokens >= cost)
                   && (ok ==> Command() == Bucket(c.tokens - cost, c.updated)
                              && server.Budget() == Bucket(g.tokens - cost, g.updated))
                   && (!ok ==> Command() == c && server.Budget() == g)
    {
      if cost == 0 || exempt {
        return true;
      }
      commandUpdated, commandTokens := RefillWeighted(now, commandUpdated, commandTokens, COMMAND_BURST, COMMAND_RATE);
      server.globalUpdated, server.globalTokens :=
        RefillWeighted(now, server.globalUpdated, server.globalTokens, GLOBAL_BURST, GLOBAL_RATE);
      if commandTokens < cost {
        return false;
      }
      if server.globalTokens < cost {
        return false;
      }
      commandTokens := commandTokens - cost;
      server.globalTokens := server.globalTokens - cost;
      ok := true;
    }
  }

  /** refill_weighted_budget on the stamp and the tokens it is given. */
  method RefillWeighted(now: int, was: int, had: nat, burst: nat, rate: nat) returns (updated: int, tokens: nat)
    ensures Bucket(tokens, updated) == Refill(Bucket(had, was), now, burst, rate)
  {
    updated, tokens := was, had;
    if updated == 0 {
      return now, burst;
    }
    if now <= updated {
      return;
    }
    var elapsed := now - updated;
    var refill := Wrapped(Earned(elapsed, rate));
    if tokens >= burst || refill >= burst - tokens {
      tokens := burst;
    } else {
      tokens := tokens + refill;
    }
    updated := now;
  }
}
