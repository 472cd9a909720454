/**
 The bounded output queue of client.c: queue_append, transport_write,
 client_flush_output, client_send_raw and client_set_output_limit, against an
 arbitrary TLS or plain transport.
 */
module OutputQueue {
  import opened Text

  const INT_MAX: nat := 0x7FFF_FFFF
  const SIZE_RANGE: nat := 0x1_0000_0000_0000_0000

  /** size_t on the 64-bit target. */
  type Size = n: nat | n < SIZE_RANGE

  const FLUSH_BUDGET: nat := 65536
  const FIRST_CAPACITY: Size := 4096

  /** One call of client_send_raw: the message, how much of it entered the stream, and the verdict. */
  datatype Sent = Sent(message: seq<byte>, taken: nat, accepted: bool)

  ghost predicate WellFormed(log: seq<Sent>) {
    forall i :: 0 <= i < |log| ==>
      && log[i].taken <= |log[i].message|
      && (log[i].accepted ==> log[i].taken == |log[i].message|)
  }

  /** Everything that entered the output stream, in order. */
  ghost function Stream(log: seq<Sent>): seq<byte>
    requires WellFormed(log)
  {
    if log == [] then []
    else Stream(log[..|log| - 1]) + log[|log| - 1].message[..log[|log| - 1].taken]
  }

  /** The accepted messages alone, in order. */
  ghost function Accepted(log: seq<Sent>): seq<byte> {
    if log == [] then []
    else Accepted(log[..|log| - 1]) + if log[|log| - 1].accepted then log[|log| - 1].message else []
  }

  /** Nothing enters the stream behind a refused message. */
  ghost predicate StopsAtRefusal(log: seq<Sent>) {
    forall i, j :: 0 <= i < j < |log| && !log[i].accepted ==> log[j].taken == 0 && !log[j].accepted
  }

  /** A refused message of which a part entered the stream. */
  predicate Cut(s: Sent) { !s.accepted && s.taken > 0 }

  ghost predicate NoCut(log: seq<Sent>) {
    forall i :: 0 <= i < |log| ==> !Cut(log[i])
  }

  /** No send has returned -1 yet. */
  ghost predicate NoRefusal(log: seq<Sent>) {
    forall i :: 0 <= i < |log| ==> log[i].accepted
  }

  lemma NoRefusalNoCut(log: seq<Sent>)
    ensures NoRefusal(log) ==> NoCut(log)
  {
  }

  /** Nothing enters the stream behind a message that was cut short. */
  ghost predicate NothingBehindCut(log: seq<Sent>) {
    forall i, j :: 0 <= i < j < |log| && Cut(log[i]) ==> log[j].taken == 0
  }

  /** When no message was cut short the stream is the concatenation of the accepted ones. */
  lemma {:induction false} AllWhole(log: seq<Sent>)
    requires WellFormed(log) && NoCut(log)
    ensures Stream(log) == Accepted(log)
  {
    if log != [] {
      AllWhole(log[..|log| - 1]);
      var last := log[|log| - 1];
      assert last.message[..last.taken] == if last.accepted then last.message else [];
    }
  }

  lemma {:induction false} NothingBehind(log: seq<Sent>, k: nat)
    requires WellFormed(log) && k <= |log|
    requires forall i :: k <= i < |log| ==> log[i].taken == 0
    ensures Stream(log) == Stream(log[..k]) && Accepted(log) == Accepted(log[..k])
    decreases |log|
  {
    if k == |log| {
      assert log[..k] == log;
    } else {
      var front := log[..|log| - 1];
      NothingBehind(front, k);
      assert front[..k] == log[..k];
    }
  }

  /** Message i was refused and ends the stream of the accepted ones with a prefix of itself. */
  ghost predicate EndsInPartOf(log: seq<Sent>, i: nat)
    requires WellFormed(log)
  {
    && i < |log| && !log[i].accepted
    && (forall j :: i < j < |log| ==> log[j].taken == 0)
    && Stream(log) == Accepted(log) + log[i].message[..log[i].taken]
  }

  lemma CutEndsStream(log: seq<Sent>, i: nat)
    requires WellFormed(log) && i < |log| && Cut(log[i]) && NoCut(log[..i])
    requires forall j :: i < j < |log| ==> log[j].taken == 0
    ensures EndsInPartOf(log, i)
  {
    NothingBehind(log, i + 1);
    var upTo, before := log[..i + 1], log[..i];
    assert upTo[..i] == before;
    AllWhole(before);
    assert Stream(upTo) == Stream(before) + log[i].message[..log[i].taken];
    assert Accepted(upTo) == Accepted(before) + [];
  }

  /**
   A log in which nothing follows a cut carries the accepted messages followed by at
   most a prefix of one refused message.
   */
  lemma OnePartialMessage(log: seq<Sent>)
    requires WellFormed(log) && NothingBehindCut(log)
    ensures Stream(log) == Accepted(log) || exists i: nat :: EndsInPartOf(log, i)
  {
    if NoCut(log) {
      AllWhole(log);
    } else {
      var first := FirstCut(log);
      CutEndsStream(log, first);
    }
  }

  lemma FirstCut(log: seq<Sent>) returns (i: nat)
    requires !NoCut(log)
    ensures i < |log| && Cut(log[i]) && NoCut(log[..i])
  {
    i := 0;
    while !Cut(log[i])
      invariant 0 <= i < |log| && NoCut(log[..i]) && exists k :: i <= k < |log| && Cut(log[k])
      decreases |log| - i
    {
      i := i + 1;
    }
  }

  // ---------------------------------------------------------------- which bytes belong to which message

  /** For every byte of the stream the number of the message it came from. */
  ghost function Origins(log: seq<Sent>): seq<nat> {
    if log == [] then [] else Origins(log[..|log| - 1]) + Repeat(|log| - 1, log[|log| - 1].taken)
  }

  /** The same for the accepted messages alone. */
  ghost function AcceptedOrigins(log: seq<Sent>): seq<nat> {
    if log == [] then []
    else
      AcceptedOrigins(log[..|log| - 1])
      + if log[|log| - 1].accepted then Repeat(|log| - 1, log[|log| - 1].taken) else []
  }

  function Repeat(i: nat, n: nat): (r: seq<nat>)
    ensures |r| == n && forall k :: 0 <= k < n ==> r[k] == i
  {
    seq(n, _ => i)
  }

  /** The stream is the accepted messages in order, with at most a part of one other at its end. */
  ghost predicate Orderly(log: seq<Sent>) {
    || Origins(log) == AcceptedOrigins(log)
    || exists i :: 0 <= i < |log| && Cut(log[i]) && Origins(log) == AcceptedOrigins(log) + Repeat(i, log[i].taken)
  }

  lemma {:induction false} OriginsInOrder(log: seq<Sent>)
    ensures forall k :: 0 <= k < |Origins(log)| ==> Origins(log)[k] < |log|
    ensures forall k, m :: 0 <= k <= m < |Origins(log)| ==> Origins(log)[k] <= Origins(log)[m]
  {
    if log != [] {
      OriginsInOrder(log[..|log| - 1]);
    }
  }

  lemma {:induction false} OriginsComplete(log: seq<Sent>, i: nat)
    requires i < |log| && log[i].taken > 0
    ensures i in Origins(log)
  {
    var front := log[..|log| - 1];
    if i < |front| {
      OriginsComplete(front, i);
    } else {
      assert Repeat(i, log[i].taken)[0] == i;
      assert Origins(log)[|Origins(front)|] == i;
    }
  }

  lemma {:induction false} AcceptedOnly(log: seq<Sent>, i: nat)
    requires i in AcceptedOrigins(log)
    ensures i < |log| && log[i].accepted
  {
    if i in AcceptedOrigins(log[..|log| - 1]) {
      AcceptedOnly(log[..|log| - 1], i);
    }
  }

  lemma {:induction false} OriginsBehind(log: seq<Sent>, k: nat)
    requires k <= |log| && forall i :: k <= i < |log| ==> log[i].taken == 0
    ensures Origins(log) == Origins(log[..k]) && AcceptedOrigins(log) == AcceptedOrigins(log[..k])
    decreases |log|
  {
    if k == |log| {
      assert log[..k] == log;
    } else {
      var front := log[..|log| - 1];
      OriginsBehind(front, k);
      assert front[..k] == log[..k];
      assert Repeat(|log| - 1, 0) == [];
    }
  }

  lemma {:induction false} OriginsWhole(log: seq<Sent>)
    requires NoCut(log)
    ensures Origins(log) == AcceptedOrigins(log)
  {
    if log != [] {
      OriginsWhole(log[..|log| - 1]);
      assert Repeat(|log| - 1, 0) == [];
    }
  }

  lemma CutNotAccepted(log: seq<Sent>, i: nat)
    requires i < |log| && Cut(log[i])
    ensures i !in AcceptedOrigins(log)
  {
    if i in AcceptedOrigins(log) {
      AcceptedOnly(log, i);
    }
  }

  lemma LastOrigin(all: seq<nat>, j: nat)
    requires j in all && forall a, b :: 0 <= a <= b < |all| ==> all[a] <= all[b]
    ensures all[|all| - 1] >= j
  {
  }

  lemma EndsInRepeat(all: seq<nat>, accepted: seq<nat>, k: nat, n: nat)
    requires n > 0 && all == accepted + Repeat(k, n)
    ensures all[|all| - 1] == k && forall x :: x in all ==> x in accepted || x == k
  {
  }

  /** A cut message with something behind it is neither absent from the stream nor at its end. */
  lemma CutInside(log: seq<Sent>, i: nat, j: nat)
    requires i < j < |log| && Cut(log[i]) && log[j].taken > 0
    ensures !Orderly(log)
  {
    hide Origins, AcceptedOrigins;
    OriginsComplete(log, i);
    OriginsComplete(log, j);
    OriginsInOrder(log);
    LastOrigin(Origins(log), j);
    CutNotAccepted(log, i);
    forall k | 0 <= k < |log| && Cut(log[k]) ensures Origins(log) != AcceptedOrigins(log) + Repeat(k, log[k].taken) {
      if Origins(log) == AcceptedOrigins(log) + Repeat(k, log[k].taken) {
        EndsInRepeat(Origins(log), AcceptedOrigins(log), k, log[k].taken);
        assert false;
      }
    }
  }

  /** The stream is orderly, whatever the messages contain, exactly when nothing follows a cut. */
  lemma OrderlyExact(log: seq<Sent>)
    ensures Orderly(log) <==> NothingBehindCut(log)
  {
    hide Origins, AcceptedOrigins;
    if NothingBehindCut(log) {
      if NoCut(log) {
        OriginsWhole(log);
      } else {
        var i := FirstCut(log);
        OriginsBehind(log, i + 1);
        OriginsWhole(log[..i]);
        OriginsUpTo(log, i);
      }
    } else {
      var i, j :| 0 <= i < j < |log| && Cut(log[i]) && log[j].taken > 0;
      CutInside(log, i, j);
    }
  }

  lemma OriginsUpTo(log: seq<Sent>, i: nat)
    requires i < |log| && Cut(log[i])
    ensures Origins(log[..i + 1]) == Origins(log[..i]) + Repeat(i, log[i].taken)
    ensures AcceptedOrigins(log[..i + 1]) == AcceptedOrigins(log[..i])
  {
    assert log[..i + 1][..i] == log[..i];
  }

  /** How one more send affects the order: it must add nothing once a message was cut. */
  lemma CutAppend(log: seq<Sent>, s: Sent)
    ensures NothingBehindCut(log + [s]) <==> NothingBehindCut(log) && (NoCut(log) || s.taken == 0)
  {
    var all := log + [s];
    assert forall i :: 0 <= i < |log| ==> all[i] == log[i];
    assert all[|log|] == s;
    if NothingBehindCut(all) && !NoCut(log) {
      var i :| 0 <= i < |log| && Cut(log[i]);
      assert Cut(all[i]);
    }
  }

  lemma StopsNothingBehind(log: seq<Sent>)
    requires StopsAtRefusal(log)
    ensures NothingBehindCut(log)
  {
  }

  /** Exactly one more send is on record. */
  ghost predicate Logged(before: seq<Sent>, after: seq<Sent>, message: seq<byte>, accepted: bool) {
    && |after| == |before| + 1 && after[..|before|] == before
    && after[|before|].message == message && after[|before|].accepted == accepted
  }

  lemma LoggedAppend(before: seq<Sent>, after: seq<Sent>, message: seq<byte>, accepted: bool)
    requires Logged(before, after, message, accepted)
    ensures NothingBehindCut(after) <==> NothingBehindCut(before) && (NoCut(before) || after[|after| - 1].taken == 0)
  {
    hide NoCut, NothingBehindCut;
    assert after == before + [after[|before|]];
    CutAppend(before, after[|before|]);
  }

  lemma StreamAppend(log: seq<Sent>, s: Sent)
    requires WellFormed(log) && s.taken <= |s.message| && (s.accepted ==> s.taken == |s.message|)
    ensures WellFormed(log + [s]) && Stream(log + [s]) == Stream(log) + s.message[..s.taken]
  {
    assert (log + [s])[..|log|] == log;
  }

  /**
   The books of one client: what was produced (written or queued) is exactly what
   the log says entered the stream. Short of a transport failure nothing follows a
   refusal, and without an overflow there is no refusal at all.
   */
  ghost predicate Balanced(log: seq<Sent>, produced: seq<byte>, failures: nat, overflowed: bool) {
    && WellFormed(log)
    && produced == Stream(log)
    && (failures == 0 ==> StopsAtRefusal(log))
    && (failures == 0 && !overflowed ==> forall i :: 0 <= i < |log| ==> log[i].accepted)
  }

  /** A further send keeps the books balanced. */
  lemma BalancedAppend(log: seq<Sent>, produced: seq<byte>, failures: nat, overflowed: bool,
                       s: Sent, failures': nat, overflowed': bool)
    requires Balanced(log, produced, failures, overflowed)
    requires s.taken <= |s.message| && (s.accepted ==> s.taken == |s.message|)
    requires failures' == 0 ==> failures == 0
    requires failures' == 0 && overflowed ==> s.taken == 0 && !s.accepted && overflowed'
    requires failures' == 0 && !s.accepted ==> overflowed'
    ensures Balanced(log + [s], produced + s.message[..s.taken], failures', overflowed')
  {
    StreamAppend(log, s);
    if failures' == 0 {
      StopsAppend(log, s);
    }
  }

  lemma StopsAppend(log: seq<Sent>, s: Sent)
    requires StopsAtRefusal(log)
    requires (s.taken == 0 && !s.accepted) || forall i :: 0 <= i < |log| ==> log[i].accepted
    ensures StopsAtRefusal(log + [s])
  {
  }

  /** Overflowing only loosens what the books promise. */
  lemma BalancedOverflow(log: seq<Sent>, produced: seq<byte>, failures: nat, overflowed: bool)
    requires Balanced(log, produced, failures, overflowed)
    ensures Balanced(log, produced, failures, true)
  {
  }

  /**
   The transport failed for good while message number mark - 1 or an earlier one
   was on its way: the wire never grows past what the log had then.
   */
  ghost predicate Frozen(log: seq<Sent>, mark: nat, wire: seq<byte>) {
    && mark <= |log| && WellFormed(log[..mark]) && StopsAtRefusal(log[..mark])
    && wire <= Stream(log[..mark])
  }

  lemma FrozenAppend(log: seq<Sent>, mark: nat, wire: seq<byte>, s: Sent)
    requires Frozen(log, mark, wire)
    ensures Frozen(log + [s], mark, wire)
  {
    assert (log + [s])[..mark] == log[..mark];
  }

  /** The first failure in the middle of a direct send fixes the wire at a prefix of that message. */
  lemma FrozenAtDirectFailure(log: seq<Sent>, wire: seq<byte>, s: Sent)
    requires Balanced(log, wire, 0, false)
    requires !s.accepted && s.taken <= |s.message|
    ensures Frozen(log + [s], |log| + 1, wire + s.message[..s.taken])
  {
    StreamAppend(log, s);
    assert (log + [s])[..|log| + 1] == log + [s];
  }

  /** A transport failure changes no book entry, and if it is the first it fixes the wire for good. */
  lemma BalancedAtFailure(log: seq<Sent>, wire: seq<byte>, queue: seq<byte>, failures: nat, overflowed: bool)
    requires Balanced(log, wire + queue, failures, overflowed)
    ensures Balanced(log, wire + queue, failures + 1, overflowed)
    ensures failures == 0 ==> Frozen(log, |log|, wire)
  {
    assert log[..|log|] == log;
  }

  lemma SliceOn(data: seq<byte>, a: nat, b: nat)
    requires a + b <= |data|
    ensures data[..a] + data[a..][..b] == data[..a + b]
  {
  }

  lemma Regroup(wire: seq<byte>, queue: seq<byte>, data: seq<byte>)
    ensures wire + (queue + data) == wire + queue + data
  {
  }

  /** Moving bytes from the head of the queue to the end of the wire keeps their concatenation. */
  lemma MoveBytes(wire: seq<byte>, queue: seq<byte>, n: nat)
    requires n <= |queue|
    ensures (wire + queue[..n]) + queue[n..] == wire + queue
    ensures n == 0 ==> wire + queue[..n] == wire
  {
  }

  datatype TlsState = NoTls | Handshake | Established

  datatype WriteResult = Wrote(count: nat) | WantRead | WantWrite | Failed

  /** The answer to a write: what the script says next, and waiting once it has run out. */
  function Reply(script: seq<WriteResult>, dead: bool, length: nat): (r: WriteResult)
    requires length > 0
    ensures r.Wrote? ==> 1 <= r.count <= length
  {
    if dead then Failed
    else if script == [] then WantWrite
    else if script[0].Wrote? then Wrote(if script[0].count == 0 then 1 else Min(script[0].count, length))
    else script[0]
  }

  function Behind(script: seq<WriteResult>): seq<WriteResult> { if script == [] then [] else script[1..] }

  /** What is left of a script after n answers. */
  function Dropped(script: seq<WriteResult>, n: nat): seq<WriteResult> {
    if n <= |script| then script[n..] else []
  }

  lemma DroppedNext(script: seq<WriteResult>, n: nat)
    ensures Behind(Dropped(script, n)) == Dropped(script, n + 1)
    ensures Dropped(script, n) == [] <==> n >= |script|
    ensures n < |script| ==> Dropped(script, n)[0] == script[n]
  {
  }

  lemma NothingDropped(script: seq<WriteResult>)
    ensures Dropped(script, 0) == script && forall offered :: AllWrote(script, 0, offered, 0)
  {
  }

  /** The first n answers were writes; the first took all it could of what was offered, and each took something. */
  ghost predicate AllWrote(script: seq<WriteResult>, n: nat, offered: nat, flushed: int) {
    && n <= |script| && n <= flushed && (forall k :: 0 <= k < n ==> script[k].Wrote?)
    && (n > 0 ==> flushed >= Min(script[0].count, offered))
  }

  /**
   Why a flush that asked the transport so many times ended, and what it wrote: every
   answer before the last was a write; it ended at a failure, at an answer to wait,
   at the end of its budget, or with an empty queue.
   */
  ghost predicate Explained(script: seq<WriteResult>, dead: bool, offered: nat, r: int, asked: nat, flushed: int) {
    && asked > 0 && flushed >= asked - 1
    && (forall k :: 0 <= k < asked - 1 ==> k < |script| && script[k].Wrote?)
    && (r == -1 ==> dead || (asked <= |script| && script[asked - 1].Failed?))
    && (r == 0 && flushed < FLUSH_BUDGET ==>
          asked > |script| || script[asked - 1].WantRead? || script[asked - 1].WantWrite?)
    && (!dead && script != [] && script[0].Wrote? ==> flushed > 0 && flushed >= Min(script[0].count, offered))
    && (dead || script == [] || !script[0].Wrote? ==> asked == 1 && flushed == 0)
  }

  lemma WroteNext(script: seq<WriteResult>, n: nat, offered: nat, flushed: int, written: nat)
    requires AllWrote(script, n, offered, flushed) && n < |script| && script[n].Wrote? && written > 0
    requires n == 0 ==> written >= Min(script[0].count, offered)
    requires flushed >= 0
    ensures AllWrote(script, n + 1, offered, flushed + written)
  {
  }

  lemma ExplainedStop(script: seq<WriteResult>, dead: bool, offered: nat, rc: int, asked: nat, flushed: int)
    requires asked > 0 && AllWrote(script, asked - 1, offered, flushed) && (asked == 1 ==> flushed == 0)
    requires asked > 1 ==> !dead
    requires rc == 0 || rc == -1
    requires rc == -1 <==> dead || (asked <= |script| && script[asked - 1].Failed?)
    requires rc == 0 ==> asked > |script| || script[asked - 1].WantRead? || script[asked - 1].WantWrite?
    ensures Explained(script, dead, offered, rc, asked, flushed)
  {
  }

  lemma ExplainedDone(script: seq<WriteResult>, dead: bool, offered: nat, r: int, asked: nat, flushed: int)
    requires asked > 0 && AllWrote(script, asked, offered, flushed) && !dead
    requires r == 1 || (r == 0 && flushed >= FLUSH_BUDGET)
    ensures Explained(script, dead, offered, r, asked, flushed)
  {
  }

  /** What becomes of a direct send: how it ends, how much of it was written, and the script behind it. */
  datatype Ending = Ending(rc: int, sent: nat, script: seq<WriteResult>)

  function Direct(script: seq<WriteResult>, dead: bool, tls: bool, n: nat): Ending
    decreases n
  {
    if n == 0 then Ending(1, 0, script)
    else
      var reply := Reply(script, dead, if tls then Min(n, INT_MAX) else n);
      if reply.Wrote? then
        var e := Direct(Behind(script), dead, tls, n - reply.count);
        e.(sent := e.sent + reply.count)
      else Ending(if reply.Failed? then -1 else 0, 0, Behind(script))
  }

  lemma DirectStep(script: seq<WriteResult>, dead: bool, tls: bool, n: nat)
    requires n > 0
    ensures var reply := Reply(script, dead, if tls then Min(n, INT_MAX) else n);
            var e := if reply.Wrote? then Direct(Behind(script), dead, tls, n - reply.count) else Ending(0, 0, []);
            Direct(script, dead, tls, n) ==
            if reply.Wrote? then e.(sent := e.sent + reply.count)
            else Ending(if reply.Failed? then -1 else 0, 0, Behind(script))
  {
  }

  lemma DirectDone(script: seq<WriteResult>, dead: bool, tls: bool)
    ensures Direct(script, dead, tls, 0) == Ending(1, 0, script)
  {
  }

  /**
   The peer side: a transport that answers as an arbitrary script says.
   `wire` is what it has taken so far. `unfinished` is the write OpenSSL asked to
   have repeated; SSL_write's own rule is that the repeat presents the same bytes,
   so that rule is a precondition here. When `lasting` holds, a transport that has
   failed once never works again.
   */
  class Transport {
    const lasting: bool
    ghost var wire: seq<byte>
    ghost var unfinished: Option<seq<byte>>
    var failures: nat
    var script: seq<WriteResult>

    constructor (lasting: bool, script: seq<WriteResult>)
      ensures this.lasting == lasting && wire == [] && unfinished == None && failures == 0 && this.script == script
    {
      this.lasting, this.script := lasting, script;
      wire, unfinished, failures := [], None, 0;
    }

    predicate Dead()
      reads this
    {
      lasting && failures > 0
    }

    /** Whatever the peer and the kernel make of a write of this length. */
    method Answer(length: nat) returns (rc: WriteResult)
      requires length > 0
      modifies this`failures, this`script
      ensures rc == Reply(old(script), old(Dead()), length) && script == Behind(old(script))
      ensures failures == old(failures) + if rc.Failed? then 1 else 0
    {
      rc := Reply(script, Dead(), length);
      script := Behind(script);
      if rc.Failed? {
        failures := failures + 1;
      }
    }

    method SslWrite(data: seq<byte>) returns (rc: WriteResult)
      requires data != []
      requires unfinished.Some? ==> data == unfinished.value
      modifies this
      ensures rc == Reply(old(script), old(Dead()), |data|) && script == Behind(old(script))
      ensures rc.Wrote? ==> wire == old(wire) + data[..rc.count] && unfinished == None
      ensures rc.WantRead? || rc.WantWrite? ==> wire == old(wire) && unfinished == Some(data)
      ensures rc.Failed? ==> wire == old(wire) && unfinished == old(unfinished)
      ensures failures == old(failures) + if rc.Failed? then 1 else 0
    {
      rc := Answer(|data|);
      if rc.Wrote? {
        wire, unfinished := wire + data[..rc.count], None;
      } else if !rc.Failed? {
        unfinished := Some(data);
      }
    }

    /** send(2) on a plain socket; waiting covers EAGAIN, EWOULDBLOCK and EINTR. */
    method PlainSend(data: seq<byte>) returns (rc: WriteResult)
      requires data != []
      modifies this
      ensures rc == Reply(old(script), old(Dead()), |data|) && script == Behind(old(script))
      ensures wire == old(wire) + if rc.Wrote? then data[..rc.count] else []
      ensures unfinished == old(unfinished)
      ensures failures == old(failures) + if rc.Failed? then 1 else 0
    {
      rc := Answer(|data|);
      if rc.Wrote? {
        wire := wire + data[..rc.count];
      }
    }
  }

  /** The doubling loop of queue_append; size_t arithmetic wraps. */
  method GrownCapacity(current: Size, needed: Size, limit: Size) returns (capacity: Size)
    requires current < needed <= limit
    ensures needed <= capacity
    ensures capacity <= limit || capacity == FIRST_CAPACITY
  {
    capacity := if current == 0 then FIRST_CAPACITY else current;
    while capacity < needed
      invariant 0 < capacity
      invariant capacity <= limit || capacity == FIRST_CAPACITY
      decreases limit - capacity
    {
      var next: Size := (capacity * 2) % SIZE_RANGE;
      if next < capacity || next > limit {
        next := limit;
      }
      capacity := next;
      if capacity < needed && capacity == limit {
        break;
      }
    }
  }

  class Client {
    const transport: Transport
    const tls: bool
    var tlsState: TlsState
    var inputRetryPending: bool

    var outbuf: array<byte>
    var outbufStart: nat
    var outbufLen: nat
    var outbufLimit: Size
    var retryPending: bool
    var wantRead: bool
    var retryLength: nat
    var overflowed: bool

    ghost var log: seq<Sent>
    ghost var mark: nat

    ghost predicate Shape()
      reads this
    {
      && outbufStart + outbufLen <= outbuf.Length
      && (tls <==> tlsState != NoTls)
      && (!overflowed ==> outbufLen <= outbufLimit)
      && (retryPending ==> 0 < retryLength)
    }

    /** The bytes waiting to be written. */
    ghost function Queue(): (q: seq<byte>)
      reads this, outbuf
      requires Shape()
      ensures |q| == outbufLen
    {
      outbuf[outbufStart..outbufStart + outbufLen]
    }

    /** The retry fields agree with the transport on a write of these bytes. */
    ghost predicate RetryCovers(data: seq<byte>)
      reads this`retryPending, this`retryLength, this`tlsState, transport`unfinished
    {
      && (retryPending ==> tls && tlsState == Established && 0 < retryLength <= |data|
                           && transport.unfinished == Some(data[..retryLength]))
      && (!retryPending ==> transport.unfinished == None)
    }

    /**
     A pending retry covers a prefix of the queue, and it is the very write the
     transport asked to have repeated. The one exception is a client whose first
     bytes to be queued were refused: its queue is empty for ever.
     */
    ghost predicate RetryValid()
      reads this, outbuf, transport
      requires Shape()
    {
      RetryCovers(Queue()) || (overflowed && outbufLen == 0)
    }

    ghost predicate Valid()
      reads this, outbuf, transport
    {
      && Shape() && RetryValid()
      && Balanced(log, transport.wire + Queue(), transport.failures, overflowed)
      && (transport.lasting && transport.failures > 0 ==> Frozen(log, mark, transport.wire))
    }

    constructor (transport: Transport, tls: bool, limit: Size)
      requires transport.wire == [] && transport.unfinished == None && transport.failures == 0
      ensures Valid() && this.transport == transport && this.tls == tls && fresh(outbuf)
      ensures log == [] && outbufLen == 0 && !overflowed && outbufLimit == limit
      ensures !retryPending && !inputRetryPending && tlsState == if tls then Handshake else NoTls
    {
      this.transport, this.tls := transport, tls;
      tlsState := if tls then Handshake else NoTls;
      inputRetryPending, retryPending, wantRead, overflowed := false, false, false, false;
      outbuf := new byte[0];
      outbufStart, outbufLen, outbufLimit, retryLength := 0, 0, limit, 0;
      log, mark := [], 0;
    }

    /**
     Output stream conservation, in every state any run of sends and flushes can
     reach: as long as nothing was sent behind a message cut short, the written bytes
     followed by the queued ones are the accepted messages in order, plus at most a
     prefix of one refused message. Without a transport failure that is always so,
     and nothing at all is accepted behind a refusal. When failures last, the wire
     holds a prefix of such a stream for ever.
     */
    lemma Conservation()
      requires Valid()
      ensures transport.wire + Queue() == Stream(log)
      ensures NothingBehindCut(log) ==>
                transport.wire + Queue() == Accepted(log) || exists i: nat :: EndsInPartOf(log, i)
      ensures transport.failures == 0 ==> StopsAtRefusal(log) && NothingBehindCut(log)
      ensures transport.failures == 0 && !overflowed ==> transport.wire + Queue() == Accepted(log)
      ensures transport.lasting && transport.failures > 0 ==>
                transport.wire <= Accepted(log[..mark])
                || exists i: nat :: EndsInPartOf(log[..mark], i) && transport.wire <= Stream(log[..mark])
    {
      hide Stream, Accepted;
      if NothingBehindCut(log) {
        OnePartialMessage(log);
      }
      if transport.failures == 0 {
        StopsNothingBehind(log);
        if !overflowed {
          AllWhole(log);
        }
      } else if transport.lasting {
        StopsNothingBehind(log[..mark]);
        OnePartialMessage(log[..mark]);
      }
    }

    /**
     The retry contract, in every reachable state: a pending retry is no longer than
     the queue exactly when the queue is not empty, and then it repeats the bytes the
     transport was left with. With an empty queue the client has overflowed.
     */
    lemma RetryContract()
      requires Valid() && retryPending
      ensures retryLength <= outbufLen <==> outbufLen != 0
      ensures outbufLen != 0 ==> transport.unfinished == Some(Queue()[..retryLength])
      ensures outbufLen == 0 ==> overflowed
    {
    }

    /** The handshake completes; OpenSSL has seen no application write before that. */
    method HandshakeDone()
      requires Valid() && tlsState == Handshake
      modifies this`tlsState
      ensures Valid() && tlsState == Established
    {
      hide Balanced, Frozen;
      tlsState := Established;
    }

    /** read_client leaves or clears an input retry, which holds output back meanwhile. */
    method SetInputRetry(pending: bool)
      requires Valid()
      modifies this`inputRetryPending
      ensures Valid() && inputRetryPending == pending
    {
      hide Balanced, Frozen;
      inputRetryPending := pending;
    }

    method SetOutputLimit(limit: Size)
      requires Valid()
      modifies this`outbufLimit, this`overflowed
      ensures Valid() && outbufLimit == limit
      ensures overflowed == (old(overflowed) || outbufLen > limit)
    {
      hide Balanced, Frozen;
      BalancedOverflow(log, transport.wire + Queue(), transport.failures, overflowed);
      outbufLimit := limit;
      if outbufLen > limit {
        overflowed := true;
      }
    }

    /** memmove of the queued bytes to the front of the buffer. */
    method Compact()
      requires Shape()
      modifies outbuf, this`outbufStart
      ensures Shape() && outbufStart == 0 && Queue() == old(Queue())
    {
      forall i | 0 <= i < outbufLen {
        outbuf[i] := outbuf[outbufStart + i];
      }
      outbufStart := 0;
    }

    /** A successful realloc to a larger capacity. */
    method Reallocate(capacity: nat)
      requires Shape() && outbufStart == 0 && outbuf.Length < capacity
      modifies this`outbuf
      ensures Shape() && fresh(outbuf) && outbuf.Length == capacity && Queue() == old(Queue())
    {
      var grown := new byte[capacity];
      forall i | 0 <= i < outbuf.Length {
        grown[i] := outbuf[i];
      }
      outbuf := grown;
    }

    /**
     The middle of queue_append: slide the queue to the front or grow the buffer
     until `extra` more bytes fit. The source's refusal after growing is never
     reached, because the grown capacity always suffices.
     */
    method MakeRoom(extra: nat, memory: bool) returns (ok: bool)
      requires Shape() && 0 < extra && outbufLen + extra <= outbufLimit
      modifies this`outbuf, this`outbufStart, outbuf
      ensures Shape() && (outbuf == old(outbuf) || fresh(outbuf))
      ensures Queue() == old(Queue())
      ensures ok <==> memory || outbufLen + extra <= old(outbuf.Length)
      ensures ok ==> outbufStart + outbufLen + extra <= outbuf.Length
    {
      if outbufStart != 0 && outbufStart + outbufLen + extra > outbuf.Length {
        Compact();
      }
      var needed := outbufStart + outbufLen + extra;
      if needed > outbuf.Length {
        var capacity := GrownCapacity(outbuf.Length, needed, outbufLimit);
        assert needed <= capacity;
        if !memory {
          return false;
        }
        Reallocate(capacity);
      }
      ok := true;
    }

    /** memcpy of the data behind the queue. */
    method Store(data: seq<byte>)
      requires Shape() && outbufStart + outbufLen + |data| <= outbuf.Length && outbufLen + |data| <= outbufLimit
      modifies outbuf, this`outbufLen
      ensures Shape() && Queue() == old(Queue()) + data
    {
      var end := outbufStart + outbufLen;
      forall i | 0 <= i < |data| {
        outbuf[end + i] := data[i];
      }
      outbufLen := outbufLen + |data|;
      assert outbuf[outbufStart..end] == old(Queue());
      assert outbuf[end..end + |data|] == data;
    }

    /**
     queue_append: refuses exactly the data that does not fit between the queue and
     its limit, given that memory can be had.
     */
    method QueueAppend(data: seq<byte>, memory: bool) returns (ok: bool)
      requires Shape() && !overflowed
      modifies this`outbuf, this`outbufStart, this`outbufLen, this`overflowed, outbuf
      ensures Shape() && (outbuf == old(outbuf) || fresh(outbuf))
      ensures ok <==>
                && |data| <= old(outbufLimit - outbufLen)
                && (memory || old(outbufLen) + |data| <= old(outbuf.Length))
      ensures Queue() == old(Queue()) + if ok then data else []
      ensures overflowed == !ok
    {
      if |data| == 0 {
        return true;
      }
      if outbufLimit == 0 || |data| > outbufLimit - outbufLen {
        overflowed := true;
        return false;
      }
      var room := MakeRoom(|data|, memory);
      if !room {
        overflowed := true;
        return false;
      }
      Store(data);
      ok := true;
    }

    /**
     transport_write: 1 with some bytes taken, 0 to wait, -1 for a failure. The
     precondition is what a retry needs; the guard that answers -1 for a retry
     shorter than the write it repeats is dead under it.
     */
    method TransportWrite(data: seq<byte>) returns (rc: int, written: nat)
      requires data != [] && (tls <==> tlsState != NoTls)
      requires RetryCovers(data)
      modifies this`retryPending, this`wantRead, this`retryLength, transport
      ensures Answers(old(transport.script), old(transport.Dead()), old(Chunk(|data|)), rc, written)
      ensures transport.script == if Ready() then Behind(old(transport.script)) else old(transport.script)
      ensures !Ready() ==> unchanged(transport)
      ensures written <= |data| && transport.wire == old(transport.wire) + data[..written]
      ensures rc == 1 || !tls ==> !retryPending && retryLength == 0
      ensures rc == 1 ==> transport.unfinished == None
      ensures rc != 1 ==> RetryCovers(data)
      ensures rc == 0 && Ready() && tls ==> retryPending
      ensures rc == -1 ==> retryPending == old(retryPending)
      ensures transport.failures == old(transport.failures) + if rc == -1 then 1 else 0
      ensures old(transport.Dead()) ==> rc != 1
    {
      written := 0;
      if tls && tlsState != Established {
        retryPending, wantRead, retryLength := false, false, 0;
        return 0, 0;
      }
      if tls && tlsState == Established {
        if inputRetryPending {
          return 0, 0;
        }
        var chunk: nat;
        if retryPending {
          assert !(retryLength == 0 || |data| < retryLength);
          chunk := retryLength;
        } else {
          chunk := Min(|data|, INT_MAX);
        }
        var result := transport.SslWrite(data[..chunk]);
        if result.Wrote? {
          retryPending, wantRead, retryLength := false, false, 0;
          assert data[..chunk][..result.count] == data[..result.count];
          return 1, result.count;
        }
        if result.WantRead? || result.WantWrite? {
          retryPending, wantRead, retryLength := true, result.WantRead?, chunk;
          return 0, 0;
        }
        return -1, 0;
      }
      var result := transport.PlainSend(data);
      retryPending, retryLength := false, 0;
      if result.Wrote? {
        return 1, result.count;
      }
      rc := if result.Failed? then -1 else 0;
    }

    /** Writes reach the transport: a plain socket, or an established TLS session that owes no input retry. */
    predicate Ready()
      reads this`tlsState, this`inputRetryPending
    {
      !tls || (tlsState == Established && !inputRetryPending)
    }

    /** The size of the write that is tried for n bytes. */
    function Chunk(n: nat): nat
      reads this
    {
      if !tls then n else if retryPending then retryLength else Min(n, INT_MAX)
    }

    /** The outcome of a write is the transport's answer, or to wait when it is not asked. */
    ghost predicate Answers(script: seq<WriteResult>, dead: bool, chunk: nat, rc: int, written: nat)
      reads this`tlsState, this`inputRetryPending
    {
      if !Ready() then rc == 0 && written == 0
      else
        && chunk > 0
        && match Reply(script, dead, chunk)
           case Wrote(n) => rc == 1 && written == n
           case Failed => rc == -1 && written == 0
           case _ => rc == 0 && written == 0
    }

    /** A live transport answers as the script says, as far as the length allows. */
    lemma AnswerKinds(script: seq<WriteResult>, dead: bool, chunk: nat, rc: int, written: nat)
      requires Ready() && Answers(script, dead, chunk, rc, written)
      ensures rc == -1 <==> dead || (script != [] && script[0].Failed?)
      ensures rc == 1 <==> !dead && script != [] && script[0].Wrote?
      ensures rc == 1 ==> written >= Min(script[0].count, chunk)
      ensures rc == 0 ==> script == [] || script[0].WantRead? || script[0].WantWrite?
    {
    }

    /** The size of the next write out of the queue: a pending retry goes out in full. */
    function Attempt(remaining: nat): nat
      reads this
    {
      var attempt := Min(outbufLen, remaining);
      if retryPending && retryLength > attempt then retryLength else attempt
    }

    /** One round of client_flush_output: a write from the head of the queue. */
    method FlushOnce(remaining: nat) returns (rc: int, written: nat)
      requires Valid() && outbufLen != 0 && remaining > 0
      modifies this`outbufStart, this`outbufLen, this`retryPending, this`wantRead, this`retryLength
      modifies this`mark, transport
      ensures Valid() && (rc == 1 || rc == 0 || rc == -1)
      ensures written <= old(outbufLen) && written <= old(Attempt(remaining))
      ensures outbufLen == old(outbufLen) - written
      ensures |transport.wire| == |old(transport.wire)| + written
      ensures transport.wire + Queue() == old(transport.wire + Queue())
      ensures rc == 1 <==> written > 0
      ensures rc == 1 ==> !retryPending
      ensures transport.failures == old(transport.failures) + if rc == -1 then 1 else 0
      ensures Answers(old(transport.script), old(transport.Dead()), old(Chunk(Attempt(remaining))), rc, written)
      ensures transport.script == if Ready() then Behind(old(transport.script)) else old(transport.script)
      ensures !Ready() ==> unchanged(transport)
    {
      hide Balanced, Frozen, RetryCovers, Attempt, Answers, Chunk;
      ghost var wire, queue := transport.wire, Queue();
      rc, written := MoveHead(remaining);
      if rc == -1 {
        assert transport.wire == wire && Queue() == queue;
        BalancedAtFailure(log, wire, queue, transport.failures - 1, overflowed);
        mark := if transport.failures == 1 then |log| else mark;
      }
    }

    /** The write of one round and what it takes off the queue. */
    method MoveHead(remaining: nat) returns (rc: int, written: nat)
      requires Shape() && RetryCovers(Queue()) && outbufLen != 0 && remaining > 0
      modifies this`outbufStart, this`outbufLen, this`retryPending, this`wantRead, this`retryLength, transport
      ensures Shape() && RetryCovers(Queue()) && (rc == 1 || rc == 0 || rc == -1)
      ensures written <= old(outbufLen) && written <= old(Attempt(remaining))
      ensures outbufLen == old(outbufLen) - written
      ensures |transport.wire| == |old(transport.wire)| + written
      ensures transport.wire + Queue() == old(transport.wire + Queue())
      ensures rc == 1 <==> written > 0
      ensures written == 0 ==> transport.wire == old(transport.wire) && Queue() == old(Queue())
      ensures rc == 1 ==> !retryPending
      ensures transport.failures == old(transport.failures) + if rc == -1 then 1 else 0
      ensures old(transport.Dead()) ==> rc != 1
      ensures Answers(old(transport.script), old(transport.Dead()), old(Chunk(Attempt(remaining))), rc, written)
      ensures transport.script == if Ready() then Behind(old(transport.script)) else old(transport.script)
      ensures !Ready() ==> unchanged(transport)
    {
      hide RetryCovers, Queue, Answers, Chunk;
      ghost var wire, queue := transport.wire, Queue();
      RetryWithin(queue);
      var attempt := Attempt(remaining);
      HeadCovered(queue, attempt);
      rc, written := WriteHead(attempt);
      MoveBytes(wire, queue, written);
      Consume(written);
      if rc == 1 {
        NoRetry(Queue());
      } else {
        assert written == 0 && queue[0..] == queue;
      }
    }

    lemma RetryWithin(data: seq<byte>)
      requires RetryCovers(data)
      ensures retryPending ==> 0 < retryLength <= |data|
    {
    }

    lemma HeadCovered(data: seq<byte>, n: nat)
      requires RetryCovers(data) && n <= |data| && (retryPending ==> retryLength <= n)
      ensures RetryCovers(data[..n])
    {
      assert retryPending ==> data[..n][..retryLength] == data[..retryLength];
    }

    /** Hand the first bytes of the queue to the transport. */
    method WriteHead(attempt: nat) returns (rc: int, written: nat)
      requires Shape() && 0 < attempt <= outbufLen && RetryCovers(Queue()[..attempt])
      modifies this`retryPending, this`wantRead, this`retryLength, transport
      ensures Shape() && Queue() == old(Queue()) && (rc == 1 || rc == 0 || rc == -1)
      ensures written <= attempt && (rc == 1 <==> written > 0)
      ensures transport.wire == old(transport.wire) + Queue()[..written]
      ensures rc == 1 ==> !retryPending && transport.unfinished == None
      ensures rc != 1 ==> RetryCovers(Queue())
      ensures transport.failures == old(transport.failures) + if rc == -1 then 1 else 0
      ensures old(transport.Dead()) ==> rc != 1
      ensures Answers(old(transport.script), old(transport.Dead()), old(Chunk(attempt)), rc, written)
      ensures transport.script == if Ready() then Behind(old(transport.script)) else old(transport.script)
      ensures !Ready() ==> unchanged(transport)
    {
      hide Reply;
      var head := outbuf[outbufStart..outbufStart + attempt];
      assert head == Queue()[..attempt];
      rc, written := TransportWrite(head);
      assert head[..written] == Queue()[..written];
      if rc != 1 && retryPending {
        assert head[..retryLength] == Queue()[..retryLength];
      }
    }

    method Consume(written: nat)
      requires Shape() && written <= outbufLen
      modifies this`outbufStart, this`outbufLen
      ensures Shape() && outbufLen == old(outbufLen) - written
      ensures Queue() == old(Queue())[written..]
    {
      outbufStart := outbufStart + written;
      outbufLen := outbufLen - written;
    }

    /** The first write of a flush: a pending retry in full, otherwise what the queue and the budget allow. */
    function Offered(): nat
      reads this
    {
      if retryPending then retryLength else Min(outbufLen, FLUSH_BUDGET)
    }

    lemma FirstOffer()
      requires Valid() && outbufLen != 0
      ensures Chunk(Attempt(FLUSH_BUDGET)) == Offered()
    {
    }

    /**
     client_flush_output: moves bytes from the head of the queue to the wire, in
     order, at most the flush budget or one pending retry in full. It asks the
     transport until the queue is empty, the budget is used, or the transport does
     not take anything: every answer before the last was a write, and a flush that
     leaves something short of its budget was told to wait or was never ready.
     */
    method FlushOutput() returns (r: int, ghost asked: nat)
      requires Valid()
      modifies this`outbufStart, this`outbufLen, this`retryPending, this`wantRead, this`retryLength
      modifies this`mark, transport
      ensures Valid()
      ensures transport.wire + Queue() == old(transport.wire + Queue())
      ensures 0 <= |transport.wire| - |old(transport.wire)|
      ensures |transport.wire| - |old(transport.wire)| <=
              if old(retryPending) && old(retryLength) > FLUSH_BUDGET then old(retryLength) else FLUSH_BUDGET
      ensures r == 1 <==> outbufLen == 0
      ensures r == 1 ==> outbufStart == 0 && !retryPending && !wantRead && retryLength == 0
      ensures old(outbufLen) == 0 ==> unchanged(transport)
      ensures r == -1 <==> transport.failures == old(transport.failures) + 1
      ensures r != -1 ==> transport.failures == old(transport.failures)
      ensures transport.script == Dropped(old(transport.script), asked)
      ensures (tls && (tlsState != Established || inputRetryPending)) || old(outbufLen) == 0 ==>
                asked == 0 && unchanged(transport)
      ensures (!tls || (tlsState == Established && !inputRetryPending)) && old(outbufLen) > 0 ==>
                Explained(old(transport.script), old(transport.Dead()), old(Offered()), r, asked,
                          |transport.wire| - |old(transport.wire)|)
    {
      hide Balanced, Frozen, RetryCovers, Reply, Behind, Dropped, Answers, Queue, Explained, AllWrote;
      var flushed := 0;
      asked := 0;
      ghost var script, dead := transport.script, transport.Dead();
      NothingDropped(script);
      while outbufLen != 0 && flushed < FLUSH_BUDGET
        invariant Valid() && flushed >= 0
        invariant transport.wire + Queue() == old(transport.wire + Queue())
        invariant flushed == |transport.wire| - |old(transport.wire)|
        invariant transport.failures == old(transport.failures)
        invariant asked == 0 ==> unchanged(transport) && outbufLen == old(outbufLen)
        invariant asked == 0 ==> retryPending == old(retryPending) && retryLength == old(retryLength)
        invariant asked != 0 ==> !retryPending && Ready() && !dead && old(outbufLen) > 0
        invariant flushed <=
                  if old(retryPending) && old(retryLength) > FLUSH_BUDGET then old(retryLength) else FLUSH_BUDGET
        invariant transport.script == Dropped(script, asked) && AllWrote(script, asked, old(Offered()), flushed)
        decreases outbufLen
      {
        DroppedNext(script, asked);
        ghost var chunk := Chunk(Attempt(FLUSH_BUDGET - flushed));
        if asked == 0 {
          FirstOffer();
        }
        var rc, written := FlushOnce(FLUSH_BUDGET - flushed);
        if !Ready() {
          return 0, 0;
        }
        AnswerKinds(Dropped(script, asked), dead, chunk, rc, written);
        asked := asked + 1;
        if rc <= 0 {
          ExplainedStop(script, dead, old(Offered()), rc, asked, flushed);
          return rc, asked;
        }
        WroteNext(script, asked - 1, old(Offered()), flushed, written);
        flushed := flushed + written;
      }
      if asked > 0 {
        ExplainedDone(script, dead, old(Offered()), if outbufLen == 0 then 1 else 0, asked, flushed);
      }
      if outbufLen != 0 {
        return 0, asked;
      }
      ResetQueue();
      r := 1;
    }

    /** The end of client_flush_output: an empty queue forgets its offset and its retry. */
    method ResetQueue()
      requires Valid() && outbufLen == 0
      modifies this`outbufStart, this`retryPending, this`wantRead, this`retryLength
      ensures Valid() && Queue() == old(Queue())
      ensures outbufStart == 0 && !retryPending && !wantRead && retryLength == 0
    {
      hide Balanced, Frozen;
      outbufStart := 0;
      retryPending, wantRead, retryLength := false, false, 0;
      assert Queue() == old(Queue()) == [];
    }

    /** The loop of client_send_raw: write straight to the transport while nothing is queued. */
    method SendDirect(data: seq<byte>) returns (rc: int, sent: nat)
      requires data != [] && (tls <==> tlsState != NoTls)
      requires !retryPending && transport.unfinished == None
      modifies this`retryPending, this`wantRead, this`retryLength, transport
      ensures sent <= |data| && transport.wire == old(transport.wire) + data[..sent]
      ensures !Ready() ==> rc == 0 && sent == 0
      ensures Ready() ==> Ending(rc, sent, transport.script)
                          == Direct(old(transport.script), old(transport.Dead()), tls, |data|)
      ensures rc == 1 || rc == 0 || rc == -1
      ensures rc == 1 <==> sent == |data|
      ensures rc != 1 ==> RetryCovers(data[sent..])
      ensures rc == 0 && Ready() && tls ==> retryPending
      ensures rc != 0 ==> !retryPending && transport.unfinished == None
      ensures transport.failures == old(transport.failures) + if rc == -1 then 1 else 0
      ensures old(transport.Dead()) ==> sent == 0
    {
      hide Direct, Reply, RetryCovers;
      sent := 0;
      ghost var dead := transport.Dead();
      assert data[0..] == data;
      NoRetry(data);
      while sent < |data|
        invariant sent <= |data| && transport.wire == old(transport.wire) + data[..sent]
        invariant !retryPending && transport.unfinished == None && (!Ready() ==> sent == 0)
        invariant RetryCovers(data[sent..])
        invariant Ready() ==>
                    var e := Direct(transport.script, dead, tls, |data| - sent);
                    Direct(old(transport.script), dead, tls, |data|) == e.(sent := e.sent + sent)
        invariant transport.failures == old(transport.failures)
        invariant dead ==> sent == 0
        decreases |data| - sent
      {
        var written;
        DirectStep(transport.script, dead, tls, |data| - sent);
        rc, written := TransportWrite(data[sent..]);
        if rc != 1 {
          return;
        }
        SliceOn(data, sent, written);
        sent := sent + written;
        NoRetry(data[sent..]);
      }
      DirectDone(transport.script, dead, tls);
      rc := 1;
    }

    lemma NoRetry(data: seq<byte>)
      requires !retryPending && transport.unfinished == None
      ensures RetryCovers(data)
    {
    }

    /** What a send with nothing queued comes to, when writes reach the transport. */
    ghost predicate SentFrom(before: seq<Sent>, script: seq<WriteResult>, dead: bool, failures: nat,
                             data: seq<byte>, room: nat, r: int)
      reads this, transport
    {
      var e := Direct(script, dead, tls, |data|);
      && transport.script == e.script && transport.failures == failures + (if e.rc == -1 then 1 else 0)
      && (e.rc == 1 ==> r != -1)
      && log != [] && (e.sent > 0 ==> log[|log| - 1].taken > 0)
      && (e.rc == -1 ==> r == -1 && !overflowed && e.sent <= |data| && log == before + [Sent(data, e.sent, false)])
      && (e.rc == 0 ==> (r != -1 <==> |data| - e.sent <= room) && overflowed == (r == -1))
    }

    /**
     client_send_raw. A send is refused only by an overflow, past or present, or by
     a transport failure; whatever it contributed to the stream is on the books.
     */
    method SendRaw(data: seq<byte>, memory: bool) returns (r: int)
      requires Valid()
      modifies this`outbuf, this`outbufStart, this`outbufLen, this`retryPending, this`wantRead, this`retryLength
      modifies this`overflowed, this`log, this`mark, outbuf, transport
      ensures Valid() && (outbuf == old(outbuf) || fresh(outbuf))
      ensures data == [] ==> r == 0 && log == old(log) && transport.wire + Queue() == old(transport.wire + Queue())
      ensures data != [] ==> Logged(old(log), log, data, r != -1)
      ensures r != -1 ==> r == Min(|data|, INT_MAX)
      ensures r == -1 ==> overflowed || transport.failures == old(transport.failures) + 1
      ensures old(overflowed) && data != [] ==> r == -1 && log[|log| - 1].taken == 0
      ensures data != [] && !old(overflowed) && (old(outbufLen) != 0 || !Ready()) ==>
                (r != -1 <==>
                   && |data| <= old(outbufLimit - outbufLen)
                   && (memory || old(outbufLen) + |data| <= old(outbuf.Length)))
      ensures data != [] ==> (NothingBehindCut(log) <==>
                                old(NothingBehindCut(log)) && (old(NoCut(log)) || log[|log| - 1].taken == 0))
      ensures old(NothingBehindCut(log)) && (old(NoRefusal(log)) || old(overflowed)) ==> NothingBehindCut(log)
      ensures !old(overflowed) && old(outbufLen) == 0 && data != [] && Ready() ==>
                && SentFrom(old(log), old(transport.script), old(transport.Dead()), old(transport.failures), data,
                            if memory then outbufLimit else Min(outbufLimit, old(outbuf.Length)), r)
                && (r == -1 ==> outbufLen == 0)
                && (r == -1 && tls && transport.failures == old(transport.failures) ==> retryPending)
    {
      hide Balanced, Frozen, NoCut, NothingBehindCut, SentFrom, NoRefusal;
      NoRefusalNoCut(log);
      if |data| == 0 {
        return 0;
      }
      if overflowed {
        RecordRefusal(data);
        CutAppend(old(log), Sent(data, 0, false));
        return -1;
      }
      if outbufLen != 0 {
        r := SendQueued(data, memory);
      } else {
        r := SendEmpty(data, memory);
      }
      LoggedAppend(old(log), log, data, r != -1);
    }

    /** A send behind a non-empty queue: all or nothing. */
    method SendQueued(data: seq<byte>, memory: bool) returns (r: int)
      requires Valid() && data != [] && !overflowed && outbufLen != 0
      modifies this`outbuf, this`outbufStart, this`outbufLen, this`overflowed, this`log, this`mark, outbuf
      ensures Valid() && (outbuf == old(outbuf) || fresh(outbuf))
      ensures Logged(old(log), log, data, r != -1)
      ensures r != -1 ==> r == Min(|data|, INT_MAX)
      ensures r == -1 ==> overflowed
      ensures r != -1 <==>
                && |data| <= old(outbufLimit - outbufLen)
                && (memory || old(outbufLen) + |data| <= old(outbuf.Length))
    {
      hide Balanced, Frozen;
      ghost var wire, queue := transport.wire, Queue();
      var ok := QueueAppend(data, memory);
      ghost var s := Sent(data, if ok then |data| else 0, ok);
      assert retryPending ==> Queue()[..retryLength] == queue[..retryLength];
      assert data[..s.taken] == if ok then data else [];
      Regroup(wire, queue, data[..s.taken]);
      EnterBooks(wire + queue, s, 0);
      r := if ok then Min(|data|, INT_MAX) else -1;
    }

    /** A send with nothing queued: straight to the transport, the rest into the queue. */
    method SendEmpty(data: seq<byte>, memory: bool) returns (r: int)
      requires Valid() && data != [] && !overflowed && outbufLen == 0
      modifies this`outbuf, this`outbufStart, this`outbufLen, this`retryPending, this`wantRead, this`retryLength
      modifies this`overflowed, this`log, this`mark, outbuf, transport
      ensures Valid() && (outbuf == old(outbuf) || fresh(outbuf))
      ensures Logged(old(log), log, data, r != -1)
      ensures r != -1 ==> r == Min(|data|, INT_MAX)
      ensures r == -1 ==> overflowed || transport.failures == old(transport.failures) + 1
      ensures Ready() ==>
                SentFrom(old(log), old(transport.script), old(transport.Dead()), old(transport.failures), data,
                         if memory then outbufLimit else Min(outbufLimit, old(outbuf.Length)), r)
      ensures !Ready() ==> (r != -1 <==> |data| <= outbufLimit && (memory || |data| <= old(outbuf.Length)))
      ensures r == -1 ==> outbufLen == 0
      ensures r == -1 && Ready() && tls && transport.failures == old(transport.failures) ==> retryPending
    {
      hide Balanced, Frozen, Direct, SentFrom, RetryValid;
      ghost var wire := transport.wire;
      ghost var script, dead, failures := transport.script, transport.Dead(), transport.failures;
      assert wire + Queue() == wire;
      NothingPending();
      var ok, rc, sent := WriteThenQueue(data, memory);
      ghost var s := Sent(data, if ok then |data| else sent, ok);
      EnterBooks(wire, s, rc);
      r := if ok then Min(|data|, INT_MAX) else -1;
      if Ready() {
        SentFromHolds(old(log), script, dead, failures, data,
                      if memory then outbufLimit else Min(outbufLimit, old(outbuf.Length)), r, rc, sent, s);
      }
    }

    /** The two halves of a direct send: the writes, and the rest into the queue. */
    method WriteThenQueue(data: seq<byte>, memory: bool) returns (ok: bool, rc: int, sent: nat)
      requires Shape() && data != [] && !overflowed && outbufLen == 0
      requires !retryPending && transport.unfinished == None
      modifies this`outbuf, this`outbufStart, this`outbufLen, this`retryPending, this`wantRead, this`retryLength
      modifies this`overflowed, outbuf, transport
      ensures Shape() && RetryValid() && (outbuf == old(outbuf) || fresh(outbuf))
      ensures sent <= |data| && transport.wire + Queue() == old(transport.wire) + data[..if ok then |data| else sent]
      ensures rc == 1 || rc == 0 || rc == -1
      ensures ok <==> rc == 1 || (rc == 0 && |data| - sent <= outbufLimit
                                  && (memory || |data| - sent <= old(outbuf.Length)))
      ensures overflowed == (rc == 0 && !ok) && (!ok || rc == 1 ==> outbufLen == 0)
      ensures !Ready() ==> rc == 0 && sent == 0
      ensures Ready() ==> Ending(rc, sent, transport.script)
                          == Direct(old(transport.script), old(transport.Dead()), tls, |data|)
      ensures rc == 0 && Ready() && tls ==> retryPending
      ensures transport.failures == old(transport.failures) + if rc == -1 then 1 else 0
      ensures old(transport.Dead()) ==> transport.wire == old(transport.wire)
    {
      hide Direct, RetryCovers;
      ghost var wire := transport.wire;
      rc, sent := SendDirect(data);
      ok := rc == 1;
      assert sent == 0 ==> transport.wire == wire;
      assert data[..|data|] == data;
      if rc == 0 {
        MoveBytes(wire, data, sent);
        RetryWithin(data[sent..]);
        ok := QueueRest(data[sent..], memory);
      } else {
        NoRetry(Queue());
      }
      assert rc != 0 || !ok ==> Queue() == [];
      assert transport.wire + [] == transport.wire;
    }

    lemma NothingPending()
      requires Valid() && !overflowed && outbufLen == 0
      ensures !retryPending && transport.unfinished == None
    {
    }

    lemma SentFromHolds(before: seq<Sent>, script: seq<WriteResult>, dead: bool, failures: nat,
                        data: seq<byte>, room: nat, r: int, rc: int, sent: nat, s: Sent)
      requires Direct(script, dead, tls, |data|) == Ending(rc, sent, transport.script) && sent <= |data|
      requires transport.failures == failures + (if rc == -1 then 1 else 0) && log == before + [s]
      requires s == Sent(data, if r != -1 then |data| else sent, r != -1)
      requires rc == 1 ==> r != -1
      requires rc == -1 ==> r == -1 && !overflowed
      requires rc == 0 ==> (r != -1 <==> |data| - sent <= room) && overflowed == (r == -1)
      ensures SentFrom(before, script, dead, failures, data, room, r)
    {
    }

    /** Queue what a direct send could not write; a retry now covers the head of the queue. */
    method QueueRest(rest: seq<byte>, memory: bool) returns (ok: bool)
      requires Shape() && !overflowed && outbufLen == 0 && rest != [] && RetryCovers(rest)
      modifies this`outbuf, this`outbufStart, this`outbufLen, this`overflowed, outbuf
      ensures Shape() && RetryValid() && (outbuf == old(outbuf) || fresh(outbuf))
      ensures Queue() == if ok then rest else []
      ensures ok <==> |rest| <= outbufLimit && (memory || |rest| <= old(outbuf.Length))
      ensures overflowed == !ok
    {
      ok := QueueAppend(rest, memory);
      assert old(Queue()) == [];
      assert Queue() == if ok then rest else [];
    }

    /** A send refused because the queue overflowed earlier leaves only its record. */
    ghost method RecordRefusal(data: seq<byte>)
      requires Valid() && overflowed
      modifies this`log
      ensures Valid() && log == old(log) + [Sent(data, 0, false)]
    {
      hide Balanced, Frozen;
      var s := Sent(data, 0, false);
      BalancedAppend(log, transport.wire + Queue(), transport.failures, true, s, transport.failures, true);
      assert transport.wire + Queue() + data[..0] == transport.wire + Queue();
      if transport.lasting && transport.failures > 0 {
        FrozenAppend(log, mark, transport.wire, s);
      }
      log := log + [s];
    }

    /** Enter a send into the books; rc is -1 when the transport failed under it. */
    ghost method EnterBooks(before: seq<byte>, s: Sent, rc: int)
      requires Shape() && RetryValid()
      requires s.taken <= |s.message| && (s.accepted ==> s.taken == |s.message|)
      requires transport.wire + Queue() == before + s.message[..s.taken]
      requires rc == -1 ==> transport.failures > 0 && Queue() == [] && !s.accepted && !overflowed
      requires rc != -1 && !s.accepted ==> overflowed
      requires Balanced(log, before, transport.failures - if rc == -1 then 1 else 0, false)
      requires s.accepted ==> !overflowed
      requires transport.lasting && transport.failures > (if rc == -1 then 1 else 0)
               ==> Frozen(log, mark, transport.wire)
      modifies this`log, this`mark
      ensures Valid() && log == old(log) + [s]
    {
      hide Balanced, Frozen;
      var failures := transport.failures - if rc == -1 then 1 else 0;
      BalancedAppend(log, before, failures, false, s, transport.failures, overflowed);
      if failures > 0 && transport.lasting {
        FrozenAppend(log, mark, transport.wire, s);
      } else if rc == -1 && failures == 0 {
        FrozenAtDirectFailure(log, before, s);
        assert transport.wire == transport.wire + Queue();
        mark := |log| + 1;
      }
      log := log + [s];
    }
  }

  // ---------------------------------------------------------------- two runs

  /**
   A plain connection whose sends fail half-way twice: both messages are cut short on
   the wire, one behind the other. The first failure leaves no mark on the client.
   */
  method TwoCutShort() returns (client: Client, first: int, second: int)
    ensures fresh(client) && fresh(client.transport) && client.Valid()
    ensures first == -1 && second == -1 && !client.overflowed && client.outbufLen == 0
    ensures client.log == [Sent([1, 2], 1, false), Sent([3, 4], 1, false)] && client.transport.wire == [1, 3]
    ensures !NothingBehindCut(client.log) && !Orderly(client.log)
  {
    hide Origins, AcceptedOrigins, Orderly, Stream, Balanced, Frozen, NothingBehindCut;
    var transport := new Transport(false, [Wrote(1), Failed, Wrote(1), Failed]);
    client := new Client(transport, false, 4096);
    first := HalfSend(client, [1, 2]);
    second := HalfSend(client, [3, 4]);
    assert client.log == [] + [Sent([1, 2], 1, false)] + [Sent([3, 4], 1, false)];
    TwoCuts(client.log);
    client.Conservation();
    assert client.Queue() == [] && transport.wire + [] == transport.wire;
  }

  /** A direct send of two bytes of which the transport takes one before it fails. */
  method HalfSend(client: Client, data: seq<byte>) returns (r: int)
    requires client.Valid() && !client.tls && !client.transport.lasting && !client.overflowed && client.outbufLen == 0
    requires |data| == 2 && |client.transport.script| >= 2
    requires client.transport.script[0] == Wrote(1) && client.transport.script[1] == Failed
    modifies client, client.outbuf, client.transport
    ensures client.Valid() && !client.overflowed && client.outbufLen == 0
    ensures client.outbuf == old(client.outbuf) || fresh(client.outbuf)
    ensures r == -1 && client.log == old(client.log) + [Sent(data, 1, false)]
    ensures client.transport.script == old(client.transport.script)[2..]
  {
    hide Balanced, Frozen, NothingBehindCut, NoCut, Direct;
    FailsHalfWay(client.transport.script);
    r := client.SendRaw(data, true);
  }

  /**
   The promise of a send cannot be had otherwise: once a message was cut and the
   client has not overflowed, the next send that gets a byte through breaks the order.
   */
  method SentBehindCut(client: Client, data: seq<byte>) returns (r: int)
    requires client.Valid() && !client.overflowed && client.outbufLen == 0 && client.Ready()
    requires data != [] && !NoCut(client.log)
    requires !client.transport.Dead() && client.transport.script != [] && client.transport.script[0].Wrote?
    modifies client, client.outbuf, client.transport
    ensures client.Valid() && !NothingBehindCut(client.log)
  {
    hide Balanced, Frozen, NothingBehindCut, NoCut, NoRefusal, Direct;
    DirectStep(client.transport.script, false, client.tls, |data|);
    r := client.SendRaw(data, true);
  }

  lemma TwoCuts(log: seq<Sent>)
    requires log == [Sent([1, 2], 1, false), Sent([3, 4], 1, false)]
    ensures WellFormed(log) && Stream(log) == [1, 3] && !NothingBehindCut(log) && !Orderly(log)
  {
    hide Orderly;
    assert Cut(log[0]) && log[1].taken == 1;
    OrderlyExact(log);
    TwoBytes(log);
  }

  lemma FailsHalfWay(script: seq<WriteResult>)
    requires |script| >= 2 && script[0] == Wrote(1) && script[1] == Failed
    ensures Direct(script, false, false, 2) == Ending(-1, 1, script[2..])
  {
    assert Behind(script)[0] == Failed;
    assert Direct(Behind(script), false, false, 1) == Ending(-1, 0, script[2..]);
  }

  lemma TwoBytes(log: seq<Sent>)
    requires log == [Sent([1, 2], 1, false), Sent([3, 4], 1, false)]
    ensures WellFormed(log) && Stream(log) == [1, 3]
  {
    var one := log[..1];
    assert one == [Sent([1, 2], 1, false)] && one[..0] == [];
    assert Stream(one) == Stream(one[..0]) + one[0].message[..1] == [1];
    assert log[1].message[..1] == [3];
    assert Stream(log) == Stream(one) + log[1].message[..1];
  }

  /** The one way to a pending retry with an empty queue: the rest of a waiting TLS write does not fit. */
  method RetryWithoutQueue() returns (r: int, client: Client)
    ensures fresh(client) && fresh(client.transport) && client.Valid()
    ensures r == -1 && client.retryPending && client.outbufLen == 0 && client.overflowed &&
              client.transport.failures == 0
  {
    hide Balanced, Frozen;
    var transport := new Transport(false, [WantWrite]);
    client := new Client(transport, true, 0);
    client.HandshakeDone();
    assert Direct([WantWrite], false, true, 1) == Ending(0, 0, []);
    r := client.SendRaw([1], true);
  }
}
