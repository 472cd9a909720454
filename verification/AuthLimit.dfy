/**
 auth_limit_consume of auth_limit.h: password work is admitted under three fixed
 windows, one per second and one per minute for the whole server and one per
 client address kept in a bounded table.
 */
module AuthLimit {
  import opened Text

  const SLOTS: nat := 4096
  const MINUTE: nat := 60
  const SECOND: nat := 1

  /** A fixed window: when it began (0 means never) and how much it has admitted. */
  datatype Window = Window(start: int, count: nat)

  datatype Slot = Slot(ip: CString, window: Window)

  datatype Config = Config(perIp: nat, global: nat, burst: nat, seconds: nat)

  datatype Limiter = Limiter(burst: Window, global: Window, slots: seq<Slot>)

  predicate Expired(w: Window, now: int, seconds: nat) {
    w.start == 0 || now < w.start || now - w.start >= seconds
  }

  /** A window that is over restarts empty at the current reading. */
  function Roll(w: Window, now: int, seconds: nat): Window {
    if Expired(w, now, seconds) then Window(now, 0) else w
  }

  function Bump(w: Window): Window { w.(count := w.count + 1) }

  predicate Vacant(s: Slot, now: int, seconds: nat) { s.ip == [] || Expired(s.window, now, seconds) }

  /** First slot of an address, or the table size. */
  function Find(slots: seq<Slot>, ip: CString, i: nat): (j: nat)
    requires i <= |slots|
    ensures i <= j <= |slots|
    ensures forall n :: i <= n < j ==> slots[n].ip != ip
    ensures j < |slots| ==> slots[j].ip == ip
    decreases |slots| - i
  {
    if i < |slots| && slots[i].ip != ip then Find(slots, ip, i + 1) else i
  }

  /** First slot that may be reused, or the table size. */
  function FindVacant(slots: seq<Slot>, now: int, seconds: nat, i: nat): (j: nat)
    requires i <= |slots|
    ensures i <= j <= |slots|
    ensures forall n :: i <= n < j ==> !Vacant(slots[n], now, seconds)
    ensures j < |slots| ==> Vacant(slots[j], now, seconds)
    decreases |slots| - i
  {
    if i < |slots| && !Vacant(slots[i], now, seconds) then FindVacant(slots, now, seconds, i + 1) else i
  }

  /** Where the address is counted and the window it is counted in; no room is the table size. */
  function Place(slots: seq<Slot>, ip: CString, now: int, seconds: nat): (r: (nat, Window))
    ensures r.0 <= |slots|
  {
    var i := Find(slots, ip, 0);
    if i < |slots| then (i, Roll(slots[i].window, now, seconds))
    else (FindVacant(slots, now, seconds, 0), Window(now, 0))
  }

  /** One unit of work for an address at a clock reading. */
  function Consume(l: Limiter, c: Config, ip: CString, now: int): (r: (Limiter, bool)) {
    if ip == [] then (l, false)
    else if c.perIp == 0 && c.global == 0 && c.burst == 0 then (l, true)
    else
      var b := if c.burst != 0 then Roll(l.burst, now, SECOND) else l.burst;
      if c.burst != 0 && b.count >= c.burst then (l.(burst := b), false)
      else
        var g := if c.global != 0 then Roll(l.global, now, MINUTE) else l.global;
        if c.global != 0 && g.count >= c.global then (l.(burst := b, global := g), false)
        else
          var (i, w) := Place(l.slots, ip, now, c.seconds);
          if c.perIp != 0 && (i == |l.slots| || w.count >= c.perIp) then (l.(burst := b, global := g), false)
          else
            (Limiter(if c.burst != 0 then Bump(b) else b,
                     if c.global != 0 then Bump(g) else g,
                     if c.perIp != 0 then l.slots[i := Slot(ip, Bump(w))] else l.slots), true)
  }

  // ---------------------------------------------------------------- one call

  /** A window that has begun, not in the future, and is not over. */
  ghost predicate Running(w: Window, now: int, seconds: nat) {
    w.start != 0 && w.start <= now < w.start + seconds
  }

  /** A slot that is taken: it has an address and its window is running. */
  ghost predicate Taken(s: Slot, now: int, seconds: nat) {
    s.ip != [] && Running(s.window, now, seconds)
  }

  /** What one more admission makes of a window: one more in a running one, the first of a new one otherwise. */
  ghost function Counting(w: Window, now: int, seconds: nat): Window {
    if Running(w, now, seconds) then Window(w.start, w.count + 1) else Window(now, 1)
  }

  ghost predicate Distinct(slots: seq<Slot>) {
    forall i, j :: 0 <= i < j < |slots| && slots[i].ip != [] ==> slots[i].ip != slots[j].ip
  }

  /** No address ever occupies two slots. */
  lemma DistinctKept(l: Limiter, c: Config, ip: CString, now: int)
    requires Distinct(l.slots)
    ensures Distinct(Consume(l, c, ip, now).0.slots)
  {
  }

  /** A live counter of another address survives every call. */
  lemma LiveNeverEvicted(l: Limiter, c: Config, ip: CString, now: int, k: nat)
    requires k < |l.slots| && l.slots[k].ip != ip && Taken(l.slots[k], now, c.seconds)
    ensures Consume(l, c, ip, now).0.slots[k] == l.slots[k]
  {
  }

  /** A refused call leaves the table alone and at most restarts a finished server window, empty. */
  lemma RefusalCountsNothing(l: Limiter, c: Config, ip: CString, now: int)
    requires !Consume(l, c, ip, now).1
    ensures var l' := Consume(l, c, ip, now).0;
            && l'.slots == l.slots
            && (l'.burst == l.burst || (l'.burst == Window(now, 0) && !Running(l.burst, now, 1)))
            && (l'.global == l.global || (l'.global == Window(now, 0) && !Running(l.global, now, 60)))
  {
  }

  /** A window that is still running and has admitted its limit. */
  ghost predicate Spent(w: Window, now: int, seconds: nat, limit: nat) {
    limit != 0 && Running(w, now, seconds) && w.count >= limit
  }

  /** The table is full of live counters of other addresses. */
  ghost predicate Crowded(slots: seq<Slot>, ip: CString, now: int, seconds: nat) {
    forall i :: 0 <= i < |slots| ==> slots[i].ip != ip && Taken(slots[i], now, seconds)
  }

  /** Work is refused exactly without an address, for a spent window, or for want of a slot. */
  lemma RefusedExactly(l: Limiter, c: Config, ip: CString, now: int)
    requires Distinct(l.slots)
    ensures !Consume(l, c, ip, now).1 <==>
              || ip == []
              || Spent(l.burst, now, 1, c.burst)
              || Spent(l.global, now, 60, c.global)
              || (c.perIp != 0 && Crowded(l.slots, ip, now, c.seconds))
              || exists i :: 0 <= i < |l.slots| && l.slots[i].ip == ip &&
                  Spent(l.slots[i].window, now, c.seconds, c.perIp)
  {
    hide Distinct;
    var i := Find(l.slots, ip, 0);
    if i < |l.slots| && ip != [] {
      forall k | 0 <= k < |l.slots| && l.slots[k].ip == ip ensures k == i {
        FindAt(l.slots, ip, k);
      }
    }
  }

  /** The slot an address is counted in: its own, or else the first that is not taken. */
  ghost predicate CountedIn(slots: seq<Slot>, ip: CString, now: int, seconds: nat, i: nat) {
    && i < |slots|
    && (slots[i].ip == ip ||
        ((forall k :: 0 <= k < |slots| ==> slots[k].ip != ip) && !Taken(slots[i], now, seconds)
         && forall k :: 0 <= k < i ==> Taken(slots[k], now, seconds)))
  }

  /** Admitted work is counted once in every window that is limited, and nowhere else. */
  lemma AdmittedExactly(l: Limiter, c: Config, ip: CString, now: int) returns (i: nat)
    requires Consume(l, c, ip, now).1
    ensures var l' := Consume(l, c, ip, now).0;
            && l'.burst == (if c.burst != 0 then Counting(l.burst, now, 1) else l.burst)
            && l'.global == (if c.global != 0 then Counting(l.global, now, 60) else l.global)
            && (c.perIp == 0 ==> l'.slots == l.slots)
            && (c.perIp != 0 ==>
                  && CountedIn(l.slots, ip, now, c.seconds, i)
                  && l'.slots == l.slots[i := Slot(ip, if l.slots[i].ip == ip
                                                       then Counting(l.slots[i].window, now, c.seconds)
                                                       else Window(now, 1))])
  {
    i := Place(l.slots, ip, now, c.seconds).0;
  }

  // ---------------------------------------------------------------- one counter over time

  ghost predicate Sorted(h: seq<int>) {
    forall i, j :: 0 <= i <= j < |h| ==> h[i] <= h[j]
  }

  /** Any n + 1 admissions in a row span at least the given time. */
  ghost predicate Spaced(h: seq<int>, n: nat, seconds: nat) {
    forall i {:trigger h[i]} :: 0 <= i && i + n < |h| ==> h[i + n] - h[i] >= seconds
  }

  /** A window that was never started, or was started by an admission. */
  predicate Used(w: Window) { w.start == 0 || w.count > 0 }

  /**
   What a counter knows of the admission times h so far: its window holds the last
   count of them, which do not precede it, everything older precedes the window, and everything older than
   one further full window precedes it by the window length. An eager counter starts
   its windows with an admission, which is one more that precedes.
   */
  ghost predicate Tracked(h: seq<int>, w: Window, limit: nat, seconds: nat, now: int, eager: bool) {
    var e := if eager then 1 else 0;
    && limit > 0 && Sorted(h) && Spaced(h, 2 * limit - e, seconds)
    && w.count <= limit && w.count <= |h| && w.start <= now
    && (w.start == 0 ==> h == [])
    && (eager && w.count == 0 ==> w.start == 0 || w.start == now)
    && (forall i :: 0 <= i < |h| ==> h[i] <= now)
    && (forall i :: 0 <= i < |h| && i < |h| - w.count + e ==> h[i] <= w.start)
    && (forall i :: |h| - w.count <= i < |h| ==> w.start <= h[i])
    && (forall i :: 0 <= i < |h| && i < |h| - w.count - limit + e ==> h[i] <= w.start - seconds)
  }

  lemma TrackLater(h: seq<int>, w: Window, limit: nat, seconds: nat, now: int, later: int, eager: bool)
    requires Tracked(h, w, limit, seconds, now, eager) && now <= later && (eager ==> Used(w))
    ensures Tracked(h, w, limit, seconds, later, eager)
  {
  }

  lemma TrackRoll(h: seq<int>, w: Window, limit: nat, seconds: nat, now: int, eager: bool)
    requires Tracked(h, w, limit, seconds, now, eager) && now > 0
    ensures Tracked(h, Roll(w, now, seconds), limit, seconds, now, eager)
  {
    var e := if eager then 1 else 0;
    if Expired(w, now, seconds) && h != [] {
      forall i | 0 <= i < |h| && i < |h| - limit + e ensures h[i] <= now - seconds {
        assert i < |h| - w.count + e;
      }
    }
  }

  lemma TrackBump(h: seq<int>, w: Window, limit: nat, seconds: nat, now: int, eager: bool)
    requires Tracked(h, w, limit, seconds, now, eager) && w.count < limit && w.start != 0
    ensures Tracked(h + [now], Bump(w), limit, seconds, now, eager)
  {
    hide Spaced;
    SpacedBump(h, w, limit, seconds, now, eager);
  }

  lemma SpacedBump(h: seq<int>, w: Window, limit: nat, seconds: nat, now: int, eager: bool)
    requires Tracked(h, w, limit, seconds, now, eager) && w.count < limit && w.start != 0
    ensures Spaced(h + [now], 2 * limit - if eager then 1 else 0, seconds)
  {
    hide Sorted;
    var h', e := h + [now], if eager then 1 else 0;
    var n := 2 * limit - e;
    forall i | 0 <= i && i + n < |h'| ensures h'[i + n] - h'[i] >= seconds {
      if i + n < |h| {
        assert h[i + n] - h[i] >= seconds;
      } else {
        assert i < |h| - w.count - limit + e;
      }
    }
  }

  /** How many admissions fall into the half-open stretch of the given length that begins at a. */
  function InStretch(h: seq<int>, a: int, length: nat): nat {
    if h == [] then 0
    else InStretch(h[..|h| - 1], a, length) + if a <= h[|h| - 1] < a + length then 1 else 0
  }

  lemma {:induction false} OldOutside(h: seq<int>, k: nat, a: int, length: nat)
    requires k <= |h| && forall i :: 0 <= i < k ==> h[i] < a
    ensures InStretch(h, a, length) <= |h| - k
    decreases |h|
  {
    if h != [] {
      OldOutside(h[..|h| - 1], if k == |h| then k - 1 else k, a, length);
    }
  }

  /** Spacing bounds every stretch of that length, wherever it begins. */
  lemma {:induction false} StretchBound(h: seq<int>, n: nat, seconds: nat, a: int)
    requires Sorted(h) && Spaced(h, n, seconds)
    ensures InStretch(h, a, seconds) <= n
    decreases |h|
  {
    if h != [] {
      var last := h[|h| - 1];
      if a <= last < a + seconds {
        var k: nat := if |h| > n then |h| - n else 0;
        forall i | 0 <= i < k ensures h[i] < a {
          assert h[i + n] - h[i] >= seconds && h[i + n] <= last;
        }
        OldOutside(h, k, a, seconds);
      } else {
        SpacedFront(h, n, seconds);
        StretchBound(h[..|h| - 1], n, seconds, a);
      }
    }
  }

  lemma SpacedFront(h: seq<int>, n: nat, seconds: nat)
    requires h != [] && Sorted(h) && Spaced(h, n, seconds)
    ensures Sorted(h[..|h| - 1]) && Spaced(h[..|h| - 1], n, seconds)
  {
    var front := h[..|h| - 1];
    forall i | 0 <= i && i + n < |front| ensures front[i + n] - front[i] >= seconds {
      assert h[i + n] - h[i] >= seconds;
    }
  }

  // ---------------------------------------------------------------- runs

  datatype Attempt = Attempt(ip: CString, now: int)

  function After(l: Limiter, c: Config, run: seq<Attempt>): Limiter {
    if run == [] then l
    else
      var last := run[|run| - 1];
      Consume(After(l, c, run[..|run| - 1]), c, last.ip, last.now).0
  }

  /** Whether the last attempt of a run was admitted. */
  predicate LastAdmitted(l: Limiter, c: Config, run: seq<Attempt>)
    requires run != []
  {
    var last := run[|run| - 1];
    Consume(After(l, c, run[..|run| - 1]), c, last.ip, last.now).1
  }

  /** The times of all admissions. */
  function Times(l: Limiter, c: Config, run: seq<Attempt>): seq<int> {
    if run == [] then []
    else Times(l, c, run[..|run| - 1]) + if LastAdmitted(l, c, run) then [run[|run| - 1].now] else []
  }

  /** The times of the admissions of one address. */
  function TimesOf(l: Limiter, c: Config, run: seq<Attempt>, ip: CString): seq<int> {
    if run == [] then []
    else
      TimesOf(l, c, run[..|run| - 1], ip)
      + if LastAdmitted(l, c, run) && run[|run| - 1].ip == ip then [run[|run| - 1].now] else []
  }

  /** A clock that is past the epoch and never steps back. */
  ghost predicate Clock(run: seq<Attempt>) {
    && (forall i :: 0 <= i < |run| ==> run[i].now > 0)
    && (forall i, j :: 0 <= i <= j < |run| ==> run[i].now <= run[j].now)
  }

  function Reading(run: seq<Attempt>): int {
    if run == [] then 0 else run[|run| - 1].now
  }

  const NEVER: Window := Window(0, 0)

  ghost predicate Fresh(l: Limiter) {
    l.burst == NEVER && l.global == NEVER && forall i :: 0 <= i < |l.slots| ==> l.slots[i] == Slot([], NEVER)
  }

  lemma ClockFront(run: seq<Attempt>)
    requires run != [] && Clock(run)
    ensures Clock(run[..|run| - 1]) && Reading(run[..|run| - 1]) <= Reading(run) && Reading(run) > 0
  {
  }

  /** One call moves a window in one of three ways, and admits only below the limit; an eager one never just rolls. */
  ghost predicate Moves(w: Window, w': Window, now: int, limit: nat, seconds: nat, admitted: bool, eager: bool) {
    if admitted then Roll(w, now, seconds).count < limit && w' == Bump(Roll(w, now, seconds))
    else w' == w || (!eager && w' == Roll(w, now, seconds))
  }

  lemma TrackMove(h: seq<int>, w: Window, w': Window, limit: nat, seconds: nat, was: int, now: int,
                  admitted: bool, eager: bool)
    requires Tracked(h, w, limit, seconds, was, eager) && was <= now && now > 0 && (eager ==> Used(w))
    requires Moves(w, w', now, limit, seconds, admitted, eager)
    ensures Tracked(h + if admitted then [now] else [], w', limit, seconds, now, eager) && (eager ==> Used(w'))
  {
    hide Tracked;
    TrackLater(h, w, limit, seconds, was, now, eager);
    TrackRoll(h, w, limit, seconds, now, eager);
    if admitted {
      TrackBump(h, Roll(w, now, seconds), limit, seconds, now, eager);
    } else {
      assert h + [] == h;
    }
  }

  /** The minute window: without address limits it is eager, since nothing refuses behind it. */
  lemma {:induction false} GlobalTracked(l: Limiter, c: Config, run: seq<Attempt>)
    requires Fresh(l) && Clock(run) && c.global != 0
    ensures var eager := c.perIp == 0;
            && Tracked(Times(l, c, run), After(l, c, run).global, c.global, MINUTE, Reading(run), eager)
            && (eager ==> Used(After(l, c, run).global))
    decreases |run|
  {
    if run != [] {
      hide Tracked, Consume;
      var front, last := run[..|run| - 1], run[|run| - 1];
      ClockFront(run);
      GlobalTracked(l, c, front);
      var before := After(l, c, front);
      var (after, admitted) := Consume(before, c, last.ip, last.now);
      GlobalMoves(before, c, last.ip, last.now);
      TrackMove(Times(l, c, front), before.global, after.global, c.global, MINUTE,
                Reading(front), last.now, admitted, c.perIp == 0);
    }
  }

  lemma GlobalMoves(l: Limiter, c: Config, ip: CString, now: int)
    requires c.global != 0
    ensures var (after, admitted) := Consume(l, c, ip, now);
            Moves(l.global, after.global, now, c.global, MINUTE, admitted, c.perIp == 0)
  {
    hide Place;
  }

  /** The second window: readings are whole seconds, so it holds the admissions of one reading. */
  ghost predicate PerSecond(h: seq<int>, w: Window, limit: nat, now: int) {
    && w.count <= limit && w.start <= now && (w.start == 0 ==> h == [])
    && (forall i :: 0 <= i < |h| ==> h[i] <= w.start)
    && InStretch(h, w.start, SECOND) == w.count
    && forall a: int :: InStretch(h, a, SECOND) <= limit
  }

  lemma PerSecondMove(h: seq<int>, w: Window, w': Window, limit: nat, was: int, now: int, admitted: bool)
    requires PerSecond(h, w, limit, was) && was <= now && now > 0
    requires Moves(w, w', now, limit, SECOND, admitted, false)
    ensures PerSecond(h + if admitted then [now] else [], w', limit, now)
  {
    hide InStretch;
    var h' := h + if admitted then [now] else [];
    if w.start < now || w.start == 0 {
      OldOutside(h, |h|, now, SECOND);
    }
    if admitted {
      forall a: int ensures InStretch(h', a, SECOND) == InStretch(h, a, SECOND) + if a == now then 1 else 0 {
        StretchLast(h, now, a, SECOND);
      }
    } else {
      assert h' == h;
    }
  }

  lemma {:induction false} BurstTracked(l: Limiter, c: Config, run: seq<Attempt>)
    requires Fresh(l) && Clock(run) && c.burst != 0
    ensures PerSecond(Times(l, c, run), After(l, c, run).burst, c.burst, Reading(run))
    decreases |run|
  {
    if run != [] {
      hide PerSecond, InStretch, Consume;
      var front, last := run[..|run| - 1], run[|run| - 1];
      ClockFront(run);
      BurstTracked(l, c, front);
      var before := After(l, c, front);
      var (after, admitted) := Consume(before, c, last.ip, last.now);
      BurstMoves(before, c, last.ip, last.now);
      PerSecondMove(Times(l, c, front), before.burst, after.burst, c.burst, Reading(front), last.now, admitted);
    } else {
      NothingPerSecond(c.burst);
    }
  }

  lemma BurstMoves(l: Limiter, c: Config, ip: CString, now: int)
    requires c.burst != 0
    ensures var (after, admitted) := Consume(l, c, ip, now);
            Moves(l.burst, after.burst, now, c.burst, SECOND, admitted, false)
  {
    hide Place;
  }

  lemma NothingPerSecond(limit: nat)
    ensures PerSecond([], NEVER, limit, 0)
  {
  }

  /**
   The history of one address agrees with its slot. An address without a slot is
   one whose last window is over: a window starting now would suit it.
   */
  ghost predicate IpTracked(h: seq<int>, slots: seq<Slot>, ip: CString, limit: nat, seconds: nat, now: int) {
    var i := Find(slots, ip, 0);
    && Tracked(h, if i < |slots| then slots[i].window else Window(now, 0), limit, seconds, now, true)
    && (i < |slots| ==> Used(slots[i].window))
  }

  lemma FindAt(slots: seq<Slot>, ip: CString, i: nat)
    requires Distinct(slots) && ip != [] && i < |slots| && slots[i].ip == ip
    ensures Find(slots, ip, 0) == i
  {
  }

  /** An admission of the address itself is counted in its window or in a new one. */
  lemma OwnAdmission(h: seq<int>, slots: seq<Slot>, ip: CString, limit: nat, seconds: nat, was: int, now: int)
    requires Distinct(slots) && ip != [] && IpTracked(h, slots, ip, limit, seconds, was) && was <= now && now > 0
    requires Place(slots, ip, now, seconds).0 < |slots| && Place(slots, ip, now, seconds).1.count < limit
    ensures var (i, w) := Place(slots, ip, now, seconds);
            IpTracked(h + [now], slots[i := Slot(ip, Bump(w))], ip, limit, seconds, now)
  {
    hide Tracked, Expired;
    var (i, w) := Place(slots, ip, now, seconds);
    var slots' := slots[i := Slot(ip, Bump(w))];
    var at := Find(slots, ip, 0);
    if at < |slots| {
      TrackMove(h, slots[at].window, Bump(w), limit, seconds, was, now, true, true);
    } else {
      GoneLater(h, limit, seconds, was, now);
      TrackBump(h, w, limit, seconds, now, true);
    }
    assert Distinct(slots');
    FindAt(slots', ip, i);
  }

  lemma GoneLater(h: seq<int>, limit: nat, seconds: nat, was: int, now: int)
    requires Tracked(h, Window(was, 0), limit, seconds, was, true) && was <= now && now > 0
    ensures Tracked(h, Window(now, 0), limit, seconds, now, true)
  {
  }

  /** An admission of another address leaves the history right, even when it takes over the slot. */
  lemma OtherAdmission(h: seq<int>, slots: seq<Slot>, ip: CString, other: CString, w: Window, i: nat,
                       limit: nat, seconds: nat, was: int, now: int)
    requires Distinct(slots) && ip != [] && other != ip && other != [] && i < |slots|
    requires IpTracked(h, slots, ip, limit, seconds, was) && was <= now && now > 0
    requires slots[i].ip == other || Vacant(slots[i], now, seconds)
    requires Distinct(slots[i := Slot(other, w)])
    ensures IpTracked(h, slots[i := Slot(other, w)], ip, limit, seconds, now)
  {
    hide Tracked, Expired;
    var slots' := slots[i := Slot(other, w)];
    var at := Find(slots, ip, 0);
    if at == |slots| {
      GoneLater(h, limit, seconds, was, now);
      assert Find(slots', ip, 0) == |slots'|;
    } else {
      TrackLater(h, slots[at].window, limit, seconds, was, now, true);
      if at == i {
        TrackRoll(h, slots[at].window, limit, seconds, now, true);
        NoOther(slots, i, other, w, ip);
      } else {
        FindAt(slots', ip, at);
      }
    }
  }

  lemma NoOther(slots: seq<Slot>, i: nat, other: CString, w: Window, ip: CString)
    requires Distinct(slots) && ip != [] && other != ip && i < |slots| && slots[i].ip == ip
    ensures Find(slots[i := Slot(other, w)], ip, 0) == |slots|
  {
  }

  lemma IpLater(h: seq<int>, slots: seq<Slot>, ip: CString, limit: nat, seconds: nat, was: int, now: int)
    requires IpTracked(h, slots, ip, limit, seconds, was) && was <= now && now > 0
    ensures IpTracked(h, slots, ip, limit, seconds, now)
  {
    hide Tracked;
    var i := Find(slots, ip, 0);
    if i < |slots| {
      TrackLater(h, slots[i].window, limit, seconds, was, now, true);
    } else {
      GoneLater(h, limit, seconds, was, now);
    }
  }

  lemma {:induction false} AddressTracked(l: Limiter, c: Config, run: seq<Attempt>, ip: CString)
    requires Fresh(l) && Clock(run) && c.perIp != 0 && ip != []
    ensures IpTracked(TimesOf(l, c, run, ip), After(l, c, run).slots, ip, c.perIp, c.seconds, Reading(run))
    ensures Distinct(After(l, c, run).slots)
    decreases |run|
  {
    if run == [] {
      assert Find(l.slots, ip, 0) == |l.slots|;
    } else {
      hide Tracked, IpTracked, Distinct;
      var front, last := run[..|run| - 1], run[|run| - 1];
      ClockFront(run);
      AddressTracked(l, c, front, ip);
      var before := After(l, c, front);
      var h := TimesOf(l, c, front, ip);
      DistinctKept(before, c, last.ip, last.now);
      AddressStep(h, before, c, ip, last.ip, Reading(front), last.now);
    }
  }

  lemma AddressStep(h: seq<int>, l: Limiter, c: Config, ip: CString, caller: CString, was: int, now: int)
    requires Distinct(l.slots) && c.perIp != 0 && ip != [] && was <= now && now > 0
    requires IpTracked(h, l.slots, ip, c.perIp, c.seconds, was)
    ensures var (l', admitted) := Consume(l, c, caller, now);
            IpTracked(h + (if admitted && caller == ip then [now] else []), l'.slots, ip, c.perIp, c.seconds, now)
  {
    hide Tracked, IpTracked, Distinct, Expired;
    var (l', admitted) := Consume(l, c, caller, now);
    assert h + [] == h;
    if !admitted {
      RefusalCountsNothing(l, c, caller, now);
      IpLater(h, l.slots, ip, c.perIp, c.seconds, was, now);
    } else {
      var (i, w) := Place(l.slots, caller, now, c.seconds);
      DistinctKept(l, c, caller, now);
      if caller == ip {
        OwnAdmission(h, l.slots, ip, c.perIp, c.seconds, was, now);
      } else {
        OtherAdmission(h, l.slots, ip, caller, Bump(w), i, c.perIp, c.seconds, was, now);
      }
    }
  }

  /** The most a minute admits: one less than twice the limit when no address limit can refuse behind it. */
  function MinuteBound(c: Config): int { 2 * c.global - if c.perIp == 0 then 1 else 0 }

  /**
   The fixed-window bounds: on every run under a clock past the epoch that never
   steps back, a second admits at most its limit, and any stretch of one address
   window or one minute less than twice the limit, or just twice it for a minute
   whose window can be started by a call that is then refused.
   */
  lemma FixedWindowBounds(l: Limiter, c: Config, run: seq<Attempt>, a: int, ip: CString)
    requires Fresh(l) && Clock(run) && ip != []
    ensures c.global != 0 ==> InStretch(Times(l, c, run), a, MINUTE) <= MinuteBound(c)
    ensures c.burst != 0 ==> InStretch(Times(l, c, run), a, SECOND) <= c.burst
    ensures c.perIp != 0 ==> InStretch(TimesOf(l, c, run, ip), a, c.seconds) <= 2 * c.perIp - 1
  {
    hide After, Times, TimesOf, InStretch, Sorted, Spaced;
    if c.global != 0 {
      GlobalTracked(l, c, run);
      StretchBound(Times(l, c, run), MinuteBound(c), MINUTE, a);
    }
    if c.burst != 0 {
      BurstTracked(l, c, run);
    }
    if c.perIp != 0 {
      AddressTracked(l, c, run, ip);
      StretchBound(TimesOf(l, c, run, ip), 2 * c.perIp - 1, c.seconds, a);
    }
  }

  // ---------------------------------------------------------------- refused only when spent

  lemma {:induction false} RecentInside(h: seq<int>, k: nat, a: int, length: nat)
    requires k <= |h| && forall i :: |h| - k <= i < |h| ==> a <= h[i] < a + length
    ensures InStretch(h, a, length) >= k
    decreases |h|
  {
    if k > 0 {
      RecentInside(h[..|h| - 1], k - 1, a, length);
    }
  }

  /** A spent window was spent by admissions of the stretch that ends with the current reading. */
  lemma SpentRecently(h: seq<int>, w: Window, limit: nat, seconds: nat, was: int, now: int, eager: bool)
    requires Tracked(h, w, limit, seconds, was, eager) && was <= now && Spent(w, now, seconds, limit)
    ensures InStretch(h, now + 1 - seconds, seconds) >= limit
  {
    hide InStretch;
    RecentInside(h, limit, now + 1 - seconds, seconds);
  }

  /**
   The limits are given out in full: on every run under a clock past the epoch that
   never steps back, a client address is refused only if this very second, the last
   minute, or the last window length for the address has admitted the whole limit, or
   if the table is full of other addresses.
   */
  lemma RefusedOnlyWhenSpent(l: Limiter, c: Config, run: seq<Attempt>, ip: CString, now: int)
    requires Fresh(l) && Clock(run) && ip != [] && now >= Reading(run) && now > 0
    requires !Consume(After(l, c, run), c, ip, now).1
    ensures || (c.burst != 0 && InStretch(Times(l, c, run), now, 1) >= c.burst)
            || (c.global != 0 && InStretch(Times(l, c, run), now - 59, 60) >= c.global)
            || (c.perIp != 0 && Crowded(After(l, c, run).slots, ip, now, c.seconds))
            || (c.perIp != 0 && InStretch(TimesOf(l, c, run, ip), now + 1 - c.seconds, c.seconds) >= c.perIp)
  {
    hide After, Times, TimesOf, InStretch, Tracked, Consume, Distinct, Fresh, Clock;
    var s := After(l, c, run);
    DistinctAlways(l, c, run);
    RefusedExactly(s, c, ip, now);
    if Spent(s.burst, now, 1, c.burst) {
      BurstTracked(l, c, run);
    } else if Spent(s.global, now, 60, c.global) {
      GlobalTracked(l, c, run);
      SpentRecently(Times(l, c, run), s.global, c.global, MINUTE, Reading(run), now, c.perIp == 0);
    } else if !(c.perIp != 0 && Crowded(s.slots, ip, now, c.seconds)) {
      var i :| 0 <= i < |s.slots| && s.slots[i].ip == ip && Spent(s.slots[i].window, now, c.seconds, c.perIp);
      AddressTracked(l, c, run, ip);
      FindAt(s.slots, ip, i);
      SpentRecently(TimesOf(l, c, run, ip), s.slots[i].window, c.perIp, c.seconds, Reading(run), now, true);
    }
  }

  lemma {:induction false} DistinctAlways(l: Limiter, c: Config, run: seq<Attempt>)
    requires Fresh(l)
    ensures Distinct(After(l, c, run).slots)
    decreases |run|
  {
    if run != [] {
      hide Consume, Distinct;
      var front, last := run[..|run| - 1], run[|run| - 1];
      DistinctAlways(l, c, front);
      DistinctKept(After(l, c, front), c, last.ip, last.now);
    }
  }

  // ---------------------------------------------------------------- the bounds are attained

  const ALICE: CString := ['a' as int]
  const BOB: CString := ['b' as int]
  const CAROL: CString := ['c' as int]
  const EMPTY: Slot := Slot([], NEVER)
  const SMALL: Limiter := Limiter(NEVER, NEVER, [EMPTY, EMPTY, EMPTY])

  lemma Extend(l: Limiter, c: Config, run: seq<Attempt>, x: Attempt)
    ensures var (after, ok) := Consume(After(l, c, run), c, x.ip, x.now);
            && After(l, c, run + [x]) == after
            && Times(l, c, run + [x]) == Times(l, c, run) + (if ok then [x.now] else [])
            && TimesOf(l, c, run + [x], x.ip) == TimesOf(l, c, run, x.ip) + (if ok then [x.now] else [])
  {
    hide Consume;
    assert (run + [x])[..|run|] == run;
  }

  /** Two admissions in one minute under a limit of one: the window between them was started by a refused call. */
  lemma MinuteAttained()
    ensures var c := Config(1, 1, 0, 1000);
            var run := [Attempt(ALICE, 1), Attempt(ALICE, 61), Attempt(BOB, 120), Attempt(CAROL, 121)];
            && Fresh(SMALL) && Clock(run) && InStretch(Times(SMALL, c, run), 120, MINUTE) == MinuteBound(c) == 2
  {
    hide After, Times, TimesOf, InStretch;
    var c := Config(1, 1, 0, 1000);
    var r1 := [Attempt(ALICE, 1)];
    var r2 := r1 + [Attempt(ALICE, 61)];
    var r3 := r2 + [Attempt(BOB, 120)];
    var alice, bob := Slot(ALICE, Window(1, 1)), Slot(BOB, Window(120, 1));
    var s1 := Limiter(NEVER, Window(1, 1), [alice, EMPTY, EMPTY]);
    var s2 := s1.(global := Window(61, 0));
    var s3 := Limiter(NEVER, Window(61, 1), [alice, bob, EMPTY]);
    StartEmpty(c);
    assert SMALL.slots[0 := alice] == s1.slots;
    assert Consume(SMALL, c, ALICE, 1) == (s1, true);
    Extend(SMALL, c, [], Attempt(ALICE, 1));
    assert [] + r1 == r1;
    assert Consume(s1, c, ALICE, 61) == (s2, false);
    Extend(SMALL, c, r1, Attempt(ALICE, 61));
    SecondSlot(s2.slots, BOB, 120, 1000);
    assert s2.slots[1 := bob] == s3.slots;
    assert Consume(s2, c, BOB, 120) == (s3, true);
    Extend(SMALL, c, r2, Attempt(BOB, 120));
    ThirdSlot(s3.slots, CAROL, 121, 1000);
    assert Consume(s3, c, CAROL, 121).1;
    Extend(SMALL, c, r3, Attempt(CAROL, 121));
    assert Times(SMALL, c, r3 + [Attempt(CAROL, 121)]) == [1, 120, 121];
    assert r3 + [Attempt(CAROL, 121)] ==
        [Attempt(ALICE, 1), Attempt(ALICE, 61), Attempt(BOB, 120), Attempt(CAROL, 121)];
    CountThree(1, 120, 121, 120, MINUTE);
  }

  lemma StartEmpty(c: Config)
    ensures After(SMALL, c, []) == SMALL && Times(SMALL, c, []) == []
    ensures forall ip :: TimesOf(SMALL, c, [], ip) == []
    ensures Place(SMALL.slots, ALICE, 1, c.seconds) == (0, Window(1, 0))
  {
    assert Find(SMALL.slots, ALICE, 0) == 3;
  }

  lemma SecondSlot(slots: seq<Slot>, ip: CString, now: int, seconds: nat)
    requires |slots| == 3 && slots[0].ip != ip && !Vacant(slots[0], now, seconds) &&
              slots[1] == slots[2] == EMPTY && ip != []
    ensures Place(slots, ip, now, seconds) == (1, Window(now, 0))
  {
    assert Find(slots, ip, 0) == 3;
  }

  lemma ThirdSlot(slots: seq<Slot>, ip: CString, now: int, seconds: nat)
    requires |slots| == 3 && slots[0].ip != ip && slots[1].ip != ip && slots[2] == EMPTY && ip != []
    requires !Vacant(slots[0], now, seconds) && !Vacant(slots[1], now, seconds)
    ensures Place(slots, ip, now, seconds) == (2, Window(now, 0))
  {
    assert Find(slots, ip, 0) == 3;
  }

  lemma NoneInStretch(a: int, length: nat)
    ensures InStretch([], a, length) == 0
  {
  }

  lemma CountThree(x: int, y: int, z: int, a: int, length: nat)
    ensures InStretch([x, y, z], a, length) ==
            (if a <= x < a + length then 1 else 0) + (if a <= y < a + length then 1 else 0)
            + (if a <= z < a + length then 1 else 0)
  {
    hide InStretch;
    StretchLast([x, y], z, a, length);
    StretchLast([x], y, a, length);
    StretchLast([], x, a, length);
    assert [x, y] + [z] == [x, y, z] && [x] + [y] == [x, y] && [] + [x] == [x];
    assert InStretch([], a, length) == 0 by {
      NoneInStretch(a, length);
    }
  }

  /** Three admissions of one address in ten seconds under a limit of two. */
  lemma AddressAttained()
    ensures var c := Config(2, 0, 0, 10);
            var run := [Attempt(ALICE, 1), Attempt(ALICE, 10), Attempt(ALICE, 11), Attempt(ALICE, 11)];
            && Fresh(SMALL) && Clock(run) &&
                InStretch(TimesOf(SMALL, c, run, ALICE), 10, c.seconds) == 2 * c.perIp - 1 == 3
  {
    hide After, Times, TimesOf, InStretch, Consume;
    var c := Config(2, 0, 0, 10);
    var r1 := [Attempt(ALICE, 1)];
    var r2 := r1 + [Attempt(ALICE, 10)];
    var r3 := r2 + [Attempt(ALICE, 11)];
    StartEmpty(c);
    FirstCounted();
    Extend(SMALL, c, [], Attempt(ALICE, 1));
    assert [] + r1 == r1;
    CountedStep(Window(1, 1), 10);
    Extend(SMALL, c, r1, Attempt(ALICE, 10));
    CountedStep(Window(1, 2), 11);
    Extend(SMALL, c, r2, Attempt(ALICE, 11));
    CountedStep(Window(11, 1), 11);
    Extend(SMALL, c, r3, Attempt(ALICE, 11));
    var run := r3 + [Attempt(ALICE, 11)];
    assert run == [Attempt(ALICE, 1), Attempt(ALICE, 10), Attempt(ALICE, 11), Attempt(ALICE, 11)];
    assert TimesOf(SMALL, c, run, ALICE) == [1] + [10, 11, 11];
    assert [1] + [10, 11, 11] == [1, 10, 11] + [11];
    CountThree(1, 10, 11, 10, 10);
    StretchLast([1, 10, 11], 11, 10, 10);
  }

  /** Three admissions in a minute under a limit of two, without address limits. */
  lemma MinuteAloneAttained()
    ensures var c := Config(0, 2, 0, 1);
            var run := [Attempt(ALICE, 1), Attempt(ALICE, 60), Attempt(ALICE, 61), Attempt(ALICE, 61)];
            && Fresh(SMALL) && Clock(run) && InStretch(Times(SMALL, c, run), 60, MINUTE) == MinuteBound(c) == 3
  {
    hide After, Times, TimesOf, InStretch, Place;
    var c := Config(0, 2, 0, 1);
    var r1 := [Attempt(ALICE, 1)];
    var r2 := r1 + [Attempt(ALICE, 60)];
    var r3 := r2 + [Attempt(ALICE, 61)];
    StartEmpty(c);
    Extend(SMALL, c, [], Attempt(ALICE, 1));
    assert [] + r1 == r1;
    assert After(SMALL, c, r1) == SMALL.(global := Window(1, 1));
    Extend(SMALL, c, r1, Attempt(ALICE, 60));
    assert After(SMALL, c, r2) == SMALL.(global := Window(1, 2));
    Extend(SMALL, c, r2, Attempt(ALICE, 61));
    assert After(SMALL, c, r3) == SMALL.(global := Window(61, 1));
    Extend(SMALL, c, r3, Attempt(ALICE, 61));
    var run := r3 + [Attempt(ALICE, 61)];
    assert run == [Attempt(ALICE, 1), Attempt(ALICE, 60), Attempt(ALICE, 61), Attempt(ALICE, 61)];
    assert Times(SMALL, c, run) == [1, 60, 61] + [61];
    CountThree(1, 60, 61, 60, MINUTE);
    StretchLast([1, 60, 61], 61, 60, MINUTE);
  }

  function Counted(w: Window): Limiter { Limiter(NEVER, NEVER, [Slot(ALICE, w), EMPTY, EMPTY]) }

  lemma FirstCounted()
    ensures Consume(SMALL, Config(2, 0, 0, 10), ALICE, 1) == (Counted(Window(1, 1)), true)
  {
    StartEmpty(Config(2, 0, 0, 10));
    assert SMALL.slots[0 := Slot(ALICE, Window(1, 1))] == Counted(Window(1, 1)).slots;
  }

  lemma CountedStep(w: Window, now: int)
    requires Roll(w, now, 10).count < 2
    ensures Consume(Counted(w), Config(2, 0, 0, 10), ALICE, now) == (Counted(Bump(Roll(w, now, 10))), true)
  {
    var next := Bump(Roll(w, now, 10));
    assert Counted(w).slots[0 := Slot(ALICE, next)] == Counted(next).slots;
  }

  lemma StretchLast(h: seq<int>, x: int, a: int, length: nat)
    ensures InStretch(h + [x], a, length) == InStretch(h, a, length) + if a <= x < a + length then 1 else 0
  {
    assert (h + [x])[..|h|] == h;
  }

  // ---------------------------------------------------------------- the epoch

  function AtZero(ip: CString, n: nat): seq<Attempt> { seq(n, _ => Attempt(ip, 0)) }

  /** Every address window that is kept was started at clock reading zero. */
  ghost predicate ZeroSlots(slots: seq<Slot>) {
    slots != [] && forall i :: 0 <= i < |slots| ==> slots[i].window.start == 0
  }

  ghost predicate AllZero(l: Limiter) {
    l.burst.start == 0 && l.global.start == 0 && ZeroSlots(l.slots)
  }

  /** At reading zero every window looks as if it had never begun, so nothing is refused. */
  lemma AdmittedAtZero(l: Limiter, c: Config, ip: CString)
    requires AllZero(l) && ip != []
    ensures Consume(l, c, ip, 0).1 && AllZero(Consume(l, c, ip, 0).0)
  {
    var (i, w) := Place(l.slots, ip, 0, c.seconds);
    assert Vacant(l.slots[0], 0, c.seconds);
    assert i < |l.slots| && w == Window(0, 0);
  }

  lemma {:induction false} NothingRefusedAtZero(l: Limiter, c: Config, ip: CString, n: nat)
    requires AllZero(l) && ip != []
    ensures AllZero(After(l, c, AtZero(ip, n)))
    ensures Times(l, c, AtZero(ip, n)) == seq(n, _ => 0) == TimesOf(l, c, AtZero(ip, n), ip)
    decreases n
  {
    hide Consume, AllZero;
    if n > 0 {
      var run := AtZero(ip, n);
      assert run[..n - 1] == AtZero(ip, n - 1);
      NothingRefusedAtZero(l, c, ip, n - 1);
      AdmittedAtZero(After(l, c, run[..n - 1]), c, ip);
    }
  }

  lemma {:induction false} AllInStretch(n: nat, length: nat)
    requires length > 0
    ensures InStretch(seq(n, _ => 0), 0, length) == n
    decreases n
  {
    if n > 0 {
      var h := seq(n, _ => 0);
      assert h[..n - 1] == seq(n - 1, _ => 0);
      AllInStretch(n - 1, length);
    }
  }

  ghost predicate Bounded(l: Limiter, c: Config, run: seq<Attempt>) {
    && (c.global != 0 ==> forall a: int :: InStretch(Times(l, c, run), a, MINUTE) <= MinuteBound(c))
    && (c.burst != 0 ==> forall a: int :: InStretch(Times(l, c, run), a, SECOND) <= c.burst)
    && (c.perIp != 0 ==> forall a: int, ip: CString :: ip != [] ==>
        InStretch(TimesOf(l, c, run, ip), a, c.seconds) <= 2 * c.perIp - 1)
  }

  ghost predicate StartsAt(run: seq<Attempt>, first: int) {
    && run != [] && run[0].now == first
    && forall i, j :: 0 <= i <= j < |run| ==> run[i].now <= run[j].now
  }

  lemma BoundedPastEpoch(l: Limiter, c: Config, run: seq<Attempt>, first: nat)
    requires Fresh(l) && StartsAt(run, first) && first > 0
    ensures Bounded(l, c, run)
  {
    hide After, Times, TimesOf, InStretch, Fresh;
    if c.global != 0 {
      forall a: int ensures InStretch(Times(l, c, run), a, MINUTE) <= MinuteBound(c) {
        FixedWindowBounds(l, c, run, a, [1]);
      }
    }
    if c.burst != 0 {
      forall a: int ensures InStretch(Times(l, c, run), a, SECOND) <= c.burst {
        FixedWindowBounds(l, c, run, a, [1]);
      }
    }
    if c.perIp != 0 {
      forall a: int, ip: CString | ip != []
        ensures InStretch(TimesOf(l, c, run, ip), a, c.seconds) <= 2 * c.perIp - 1
      {
        FixedWindowBounds(l, c, run, a, ip);
      }
    }
  }

  lemma UnboundedAtEpoch(l: Limiter, c: Config, n: nat)
    requires Fresh(l) && l.slots != [] && c.seconds > 0
    requires c.global != 0 || c.burst != 0 || c.perIp != 0
    requires n > 2 * c.global && n > 2 * c.burst && n > 2 * c.perIp
    ensures StartsAt(AtZero([1], n), 0) && !Bounded(l, c, AtZero([1], n))
  {
    hide After, Times, TimesOf, InStretch;
    var run := AtZero([1], n);
    NothingRefusedAtZero(l, c, [1], n);
    AllInStretch(n, MINUTE);
    AllInStretch(n, SECOND);
    AllInStretch(n, c.seconds);
    assert InStretch(Times(l, c, run), 0, MINUTE) == n;
    assert InStretch(Times(l, c, run), 0, SECOND) == n;
    assert InStretch(TimesOf(l, c, run, [1]), 0, c.seconds) == n;
  }

  /**
   For a clock that never steps back and starts at or after the epoch, the bounds
   hold on every run exactly when the first reading is not the epoch itself, whose
   value doubles as the mark of a window that never began.
   */
  lemma BoundsExact(l: Limiter, c: Config, first: nat)
    requires Fresh(l) && l.slots != [] && c.seconds > 0
    requires c.global != 0 || c.burst != 0 || c.perIp != 0
    ensures (forall run: seq<Attempt> :: StartsAt(run, first) ==> Bounded(l, c, run)) <==> first > 0
  {
    hide Bounded, Fresh;
    if first > 0 {
      forall run: seq<Attempt> | StartsAt(run, first) ensures Bounded(l, c, run) {
        BoundedPastEpoch(l, c, run, first);
      }
    } else {
      UnboundedAtEpoch(l, c, 2 * (c.global + c.burst + c.perIp) + 1);
    }
  }

  // ---------------------------------------------------------------- the code

  class Server {
    const config: Config
    var burstStart: int
    var burstCount: nat
    var globalStart: int
    var globalCount: nat
    const slots: array<Slot>

    constructor (config: Config)
      ensures this.config == config && Fresh(Now()) && slots.Length == SLOTS && fresh(slots)
    {
      this.config := config;
      burstStart, burstCount, globalStart, globalCount := 0, 0, 0, 0;
      slots := new Slot[SLOTS](_ => Slot([], NEVER));
    }

    ghost function Now(): Limiter
      reads this, slots
    {
      Limiter(Window(burstStart, burstCount), Window(globalStart, globalCount), slots[..])
    }

    /** The scan over the address table: the slot to count in, or the table size. */
    method FindPlace(ip: CString, now: int) returns (place: nat, window: Window)
      requires ip != []
      ensures (place, window) == Place(slots[..], ip, now, config.seconds)
    {
      hide Expired;
      var free := slots.Length;
      ghost var table := slots[..];
      var i := 0;
      while i < slots.Length
        invariant 0 <= i <= slots.Length
        invariant Find(table, ip, 0) == Find(table, ip, i)
        invariant free < slots.Length ==> free == FindVacant(table, now, config.seconds, 0)
        invariant free == slots.Length ==>
                  FindVacant(table, now, config.seconds, 0) == FindVacant(table, now, config.seconds, i)
        invariant free <= slots.Length
      {
        var candidate := slots[i];
        if candidate.ip != [] && candidate.ip == ip {
          return i, Roll(candidate.window, now, config.seconds);
        }
        if candidate.ip == [] || Expired(candidate.window, now, config.seconds) {
          if free == slots.Length {
            free := i;
          }
        }
        i := i + 1;
      }
      place, window := free, Window(now, 0);
    }

    method ConsumeWork(ip: CString, now: int) returns (ok: bool)
      modifies this, slots
      ensures (Now(), ok) == Consume(old(Now()), config, ip, now)
    {
      hide Expired, Place;
      if ip == [] {
        return false;
      }
      if config.perIp == 0 && config.global == 0 && config.burst == 0 {
        return true;
      }
      if config.burst != 0 {
        if Expired(Window(burstStart, burstCount), now, SECOND) {
          burstStart, burstCount := now, 0;
        }
        if burstCount >= config.burst {
          return false;
        }
      }
      if config.global != 0 {
        if Expired(Window(globalStart, globalCount), now, MINUTE) {
          globalStart, globalCount := now, 0;
        }
        if globalCount >= config.global {
          return false;
        }
      }
      if config.perIp != 0 {
        var place, window := FindPlace(ip, now);
        if place == slots.Length || window.count >= config.perIp {
          return false;
        }
        ghost var table := slots[..];
        slots[place] := Slot(ip, window);
        slots[place] := Slot(ip, Bump(window));
        assert slots[..] == table[place := Slot(ip, Bump(window))];
      }
      if config.global != 0 {
        globalCount := globalCount + 1;
      }
      if config.burst != 0 {
        burstCount := burstCount + 1;
      }
      ok := true;
    }
  }
}
