/**
 Input framing of server.c: read_client appends whatever the socket yields to a
 fixed buffer, process_buffered_lines cuts complete lines off it under a per-client
 and a global budget, and client_input_line_fits applies the size limits of
 RFC 1459 section 2.3 and of IRCv3 message tags.
 */
module InputFraming {
  import opened Text

  const NL: byte := 10
  const CR: byte := 13
  const AT: byte := '@' as int
  const SPACE: byte := ' ' as int
  const TAG_SECTION_MAX: nat := 4096
  const INPUT_LINE_MAX: nat := 4606
  const BUFFER_SIZE: nat := 8192
  const CLIENT_BUDGET: nat := 32

  type Bytes = seq<byte>

  // ---------------------------------------------------------------- one line

  /** Offset of the first occurrence of b at or after i, or the length. */
  function Find(s: Bytes, b: byte, i: nat): (j: nat)
    requires i <= |s|
    ensures i <= j <= |s|
    ensures forall n :: i <= n < j ==> s[n] != b
    ensures j < |s| ==> s[j] == b
    decreases |s| - i
  {
    if i < |s| && s[i] != b then Find(s, b, i + 1) else i
  }

  /** A raw line without its optional carriage return. */
  function Content(raw: Bytes): Bytes {
    if raw != [] && raw[|raw| - 1] == CR then raw[..|raw| - 1] else raw
  }

  /** client_input_line_fits: separate allowances for the tag section and the message. */
  predicate Fits(line: Bytes) {
    if line == [] || line[0] != AT then |line| <= LINE_CONTENT_MAX
    else
      var separator := Find(line, SPACE, 0);
      && separator < |line| && separator != 1
      && separator + 1 <= TAG_SECTION_MAX
      && |line| - (separator + 1) <= LINE_CONTENT_MAX
  }

  datatype Verdict = Dispatch(line: Bytes) | Blank | TooLong | Violation

  /** What becomes of a complete line. */
  function Judge(raw: Bytes): Verdict {
    var line := Content(raw);
    if 0 in raw || CR in line then Violation
    else if !Fits(line) then if line[0] == AT then TooLong else Violation
    else if line == [] then Blank
    else Dispatch(line)
  }

  /** A line as RFC 1459 and IRCv3 message tags size it: at most 510 bytes, or tags, a space and at most 510 bytes. */
  ghost predicate Plain(line: Bytes) { (line == [] || line[0] != AT) && |line| <= 510 }

  ghost predicate Tagged(line: Bytes, tags: Bytes, message: Bytes) {
    && line == [AT] + tags + [SPACE] + message
    && tags != [] && SPACE !in tags && |tags| <= 4094 && |message| <= 510
  }

  ghost predicate WellSized(line: Bytes) {
    Plain(line) || exists tags, message :: Tagged(line, tags, message)
  }

  /** The wire form of a line: with or without the carriage return, and without stray ones or zeros. */
  ghost predicate Framed(raw: Bytes, line: Bytes) {
    (raw == line || raw == line + [CR]) && 0 !in line && CR !in line
  }

  /** The size check admits exactly the well-sized lines. */
  lemma FitsExactly(line: Bytes)
    ensures Fits(line) <==> WellSized(line)
  {
    if line != [] && line[0] == AT {
      var n := Find(line, SPACE, 0);
      if Fits(line) {
        var tags, message := line[1..n], line[n + 1..];
        assert forall k :: 0 <= k < |tags| ==> tags[k] == line[k + 1];
        assert Tagged(line, tags, message);
      }
      if tags, message :| Tagged(line, tags, message) {
        TaggedSeparator(line, tags, message);
      }
    }
  }

  lemma TaggedSeparator(line: Bytes, tags: Bytes, message: Bytes)
    requires Tagged(line, tags, message)
    ensures Find(line, SPACE, 0) == |tags| + 1
  {
    hide Find;
    forall k | 1 <= k <= |tags| ensures line[k] != SPACE {
      assert line[k] == tags[k - 1];
    }
    assert line[|tags| + 1] == SPACE;
  }

  /** A raw line has at most one reading as a framed line. */
  lemma FramedContent(raw: Bytes, line: Bytes)
    ensures Framed(raw, line) <==> line == Content(raw) && 0 !in raw && CR !in line
  {
    if raw == line + [CR] {
      assert raw[..|raw| - 1] == line;
      assert raw[|raw| - 1] == CR;
    }
    if line == Content(raw) && raw != line {
      assert raw == line + [CR];
    }
    assert forall b :: b in line + [CR] <==> b in line || b == CR;
    if Framed(raw, line) && raw == line && raw != [] {
      assert raw[|raw| - 1] in line;
    }
  }

  /**
   What becomes of a raw line, said without the way it is computed: a framed,
   well-sized line is dispatched without its carriage return, an empty one skipped, a
   tagged one of another size answered, and everything else ends the connection.
   */
  lemma JudgeExact(raw: Bytes, line: Bytes)
    ensures Judge(raw) == Dispatch(line) <==> Framed(raw, line) && line != [] && WellSized(line)
    ensures Judge(raw) == Blank <==> raw == [] || raw == [CR]
    ensures Framed(raw, line) ==> (Judge(raw) == TooLong <==> line != [] && line[0] == AT && !WellSized(line))
    ensures Judge(raw) == Violation <==>
              forall l: Bytes :: Framed(raw, l) ==> (l == [] || l[0] != AT) && |l| > 510
  {
    hide Fits, Content, Framed, WellSized;
    FramedContent(raw, line);
    FitsExactly(line);
    var content := Content(raw);
    FramedContent(raw, content);
    FitsExactly(content);
    BlankContent(raw);
    forall l: Bytes ensures Framed(raw, l) ==> l == content {
      FramedContent(raw, l);
    }
    SizeOfPlain(content);
  }

  lemma BlankContent(raw: Bytes)
    ensures Content(raw) == [] <==> raw == [] || raw == [CR]
    ensures WellSized([])
  {
    assert Plain([]);
    if Content(raw) == [] && raw != [] {
      assert raw == [CR];
    }
  }

  lemma SizeOfPlain(line: Bytes)
    ensures line == [] || line[0] != AT ==> (WellSized(line) <==> |line| <= 510)
  {
    forall tags, message | Tagged(line, tags, message) ensures line != [] && line[0] == AT {
    }
  }

  /** The longest raw line the partial-line check tolerates, less its line ending. */
  function Limit(raw: Bytes): nat {
    if raw != [] && raw[0] == AT then INPUT_LINE_MAX else LINE_CONTENT_MAX
  }

  predicate PartialOverlong(buffered: Bytes) {
    |buffered| > Limit(buffered) + 1 && NL !in buffered
  }

  /**
   Whether the outcome of a line can depend on how it was cut into reads: no prefix
   of an acceptable line is refused as an overlong partial line exactly when the
   line is within the limit. Only tagged lines can exceed it.
   */
  lemma CutSafe(raw: Bytes)
    requires Judge(raw) != Violation && NL !in raw
    ensures (forall k :: 0 <= k <= |raw| ==> !PartialOverlong(raw[..k])) <==> |raw| <= Limit(raw) + 1
    ensures |raw| > Limit(raw) + 1 ==> raw[0] == AT && Judge(raw) == TooLong
  {
    if |raw| > Limit(raw) + 1 {
      assert raw[..|raw|] == raw;
      assert PartialOverlong(raw[..|raw|]);
    }
  }

  /** Refusing an overlong partial line loses no command: nothing that could follow would make it one. */
  lemma NeverCompleted(buffered: Bytes, rest: Bytes)
    requires PartialOverlong(buffered)
    ensures !Judge(buffered + rest).Dispatch? && !Judge(buffered + rest).Blank?
  {
    hide Find;
    var raw := buffered + rest;
    var line := Content(raw);
    assert raw[0] == buffered[0];
    assert |line| >= |raw| - 1;
    assert line[0] == raw[0];
  }

  /** The tag data of a dispatched line is short, and free of spaces, line breaks and zeros. */
  lemma AdmittedTags(raw: Bytes)
    requires NL !in raw && Judge(raw).Dispatch? && Judge(raw).line[0] == AT
    ensures var line := Judge(raw).line;
            var separator := Find(line, SPACE, 0);
            && 0 < separator < |line|
            && var tags := line[1..separator];
               |tags| <= TAG_SECTION_MAX - 2 && SPACE !in tags && CR !in tags && NL !in tags && 0 !in tags
  {
    var line := Judge(raw).line;
    assert forall n :: 0 <= n < |line| ==> line[n] == raw[n];
    var tags := line[1..Find(line, SPACE, 0)];
    assert forall n :: 0 <= n < |tags| ==> tags[n] == line[n + 1];
  }

  /** What becomes of a framed line that is not empty: dispatched, answered as too long, or neither. */
  ghost predicate Answered(raw: Bytes, before: seq<Verdict>, after: seq<Verdict>) {
    forall line: Bytes :: Framed(raw, line) && line != [] ==>
        after == before + if WellSized(line) then [Dispatch(line)] else if line[0] == AT then [TooLong] else []
  }

  // ---------------------------------------------------------------- a stream

  /** The complete lines of a stream. */
  function Lines(s: Bytes): seq<Bytes>
    decreases |s|
  {
    var n := Find(s, NL, 0);
    if n == |s| then [] else [s[..n]] + Lines(s[n + 1..])
  }

  /** What follows the last line end. */
  function Tail(s: Bytes): (t: Bytes)
    ensures NL !in t
    decreases |s|
  {
    var n := Find(s, NL, 0);
    if n == |s| then s else Tail(s[n + 1..])
  }

  /** Lines with their ends, one after the other. */
  function Unlines(lines: seq<Bytes>): Bytes {
    if lines == [] then [] else lines[0] + [NL] + Unlines(lines[1..])
  }

  /** Cutting a stream loses and invents nothing. */
  lemma {:induction false} LinesSpell(s: Bytes)
    ensures Unlines(Lines(s)) + Tail(s) == s
    decreases |s|
  {
    hide Find;
    var n := Find(s, NL, 0);
    if n == |s| {
      assert Unlines(Lines(s)) == [];
    } else {
      hide Lines, Tail, Unlines;
      var rest := s[n + 1..];
      LinesSpell(rest);
      HeadLine(s);
      UnlinesMore(s[..n], Lines(rest), Tail(rest));
      assert s == s[..n] + [NL] + rest;
    }
  }

  /** It cuts at every line end. */
  lemma {:induction false} LinesWhole(s: Bytes)
    ensures forall i :: 0 <= i < |Lines(s)| ==> NL !in Lines(s)[i]
    decreases |s|
  {
    hide Find;
    var n := Find(s, NL, 0);
    if n < |s| {
      hide Lines;
      LinesWhole(s[n + 1..]);
      HeadLine(s);
    }
  }

  lemma UnlinesMore(line: Bytes, lines: seq<Bytes>, tail: Bytes)
    ensures Unlines([line] + lines) + tail == line + [NL] + (Unlines(lines) + tail)
  {
    assert ([line] + lines)[1..] == lines;
  }

  /** What the command layer and the peer get to see of the lines. */
  function Events(lines: seq<Bytes>): seq<Verdict> {
    if lines == [] then []
    else
      var v := Judge(lines[|lines| - 1]);
      Events(lines[..|lines| - 1]) + if v.Blank? then [] else [v]
  }

  /** Every line is acceptable and within the partial-line limit, the unfinished last one included. */
  ghost predicate Tame(s: Bytes) {
    && (forall i :: 0 <= i < |Lines(s)| ==> Judge(Lines(s)[i]) != Violation && |Lines(s)[i]| <= Limit(Lines(s)[i]) + 1)
    && |Tail(s)| <= Limit(Tail(s)) + 1
  }

  lemma {:induction false} HeadLine(s: Bytes)
    ensures var n := Find(s, NL, 0);
            if n == |s| then Lines(s) == [] && Tail(s) == s
            else Lines(s) == [s[..n]] + Lines(s[n + 1..]) && Tail(s) == Tail(s[n + 1..])
  {
  }

  /** A stream that ends in a line end splits cleanly from what follows. */
  lemma {:induction false} LinesConcat(a: Bytes, b: Bytes)
    requires Tail(a) == []
    ensures Lines(a + b) == Lines(a) + Lines(b) && Tail(a + b) == Tail(b)
    decreases |a|
  {
    hide Lines, Tail, Find;
    var s := a + b;
    var n := Find(a, NL, 0);
    HeadLine(a);
    if n == |a| {
      assert s == b;
    } else {
      FindPrefix(a, b, 0);
      HeadLine(s);
      assert s[..n] == a[..n] && s[n + 1..] == a[n + 1..] + b;
      LinesConcat(a[n + 1..], b);
    }
  }

  lemma {:induction false} FindPrefix(a: Bytes, b: Bytes, i: nat)
    requires i <= |a| && Find(a, NL, i) < |a|
    ensures Find(a + b, NL, i) == Find(a, NL, i)
    decreases |a| - i
  {
    if a[i] != NL {
      FindPrefix(a, b, i + 1);
    }
  }

  lemma {:induction false} NoLineEnd(s: Bytes, i: nat)
    requires i <= |s| && NL !in s[i..]
    ensures Find(s, NL, i) == |s|
    decreases |s| - i
  {
    if i < |s| {
      assert s[i] in s[i..];
      NoLineEnd(s, i + 1);
    }
  }

  /** A buffer without a line end is all tail. */
  lemma AllTail(s: Bytes)
    requires NL !in s
    ensures Lines(s) == [] && Tail(s) == s
  {
    assert s[0..] == s;
    NoLineEnd(s, 0);
  }

  /** One line with its end, on its own. */
  lemma OneLine(raw: Bytes)
    requires NL !in raw
    ensures Lines(raw + [NL]) == [raw] && Tail(raw + [NL]) == []
  {
    var s := raw + [NL];
    FindUnique(s, |raw|);
    assert s[..|raw|] == raw && s[|raw| + 1..] == [];
    AllTail([]);
  }

  lemma FindUnique(s: Bytes, n: nat)
    requires n < |s| && s[n] == NL && NL !in s[..n]
    ensures Find(s, NL, 0) == n
  {
    hide Find;
  }

  /**
   Segmentation independence: once every complete line is consumed, the events are
   those of the received stream, whatever the reads and budgets were; before that
   they are those of a prefix of its lines.
   */
  lemma EventsOfStream(received: Bytes, consumed: Bytes, buffered: Bytes)
    requires received == consumed + buffered && Tail(consumed) == []
    ensures Lines(consumed) <= Lines(received)
    ensures NL !in buffered ==> Lines(consumed) == Lines(received)
  {
    LinesConcat(consumed, buffered);
    if NL !in buffered {
      AllTail(buffered);
    }
  }

  /** The first raw line of the rest is the next line of the whole stream. */
  lemma LineTaken(received: Bytes, consumed: Bytes, rest: Bytes, raw: Bytes)
    requires Tail(consumed) == [] && received == consumed + rest
    requires |raw| < |rest| && rest[..|raw|] == raw && rest[|raw|] == NL && NL !in raw
    ensures Lines(rest) == [raw] + Lines(rest[|raw| + 1..])
    ensures received == (consumed + raw + [NL]) + rest[|raw| + 1..]
    ensures Lines(consumed + raw + [NL]) == Lines(consumed) + [raw] && Tail(consumed + raw + [NL]) == []
    ensures Tame(received) ==> Judge(raw) != Violation
  {
    hide Judge, Limit, Lines, Tail, Find;
    FindUnique(rest, |raw|);
    HeadLine(rest);
    LinesConcat(consumed, rest);
    OneLine(raw);
    LinesConcat(consumed, raw + [NL]);
    assert consumed + raw + [NL] == consumed + (raw + [NL]);
    assert rest == raw + [NL] + rest[|raw| + 1..];
    assert Lines(received)[|Lines(consumed)|] == raw;
  }

  /** A buffer that yields no line holds no line end. */
  lemma NothingCut(s: Bytes)
    requires Lines(s) == []
    ensures NL !in s
  {
    var n := Find(s, NL, 0);
    assert n == |s|;
  }

  lemma EventsGrow(lines: seq<Bytes>, raw: Bytes)
    ensures Events(lines + [raw]) == Events(lines) + if Judge(raw).Blank? then [] else [Judge(raw)]
  {
    hide Judge;
    assert (lines + [raw])[..|lines|] == lines;
  }

  // ---------------------------------------------------------------- the client

  datatype Outcome =
    | Kept                // lines cut, connection stays
    | Rejected            // malformed or overlong framing
    | PartialRejected     // unfinished line already over the limit
    | Stopped             // a command ended the connection

  /** What the socket or the TLS layer answers to a read. */
  datatype Socket = Yields(bytes: Bytes) | WantsRead | WantsWrite | Lost

  class Client {
    const tls: bool
    const inbuf: array<byte>
    var inbufLen: nat
    var inputRetryPending: bool
    var inputWantWrite: bool

    ghost var received: Bytes
    ghost var consumed: Bytes
    ghost var events: seq<Verdict>

    ghost predicate Shape()
      reads this
    {
      inbuf.Length == BUFFER_SIZE && inbufLen < BUFFER_SIZE
    }

    ghost function Buffered(): Bytes
      reads this, inbuf
      requires Shape()
    {
      inbuf[..inbufLen]
    }

    /** What was consumed are whole lines, and they made exactly these events. */
    ghost predicate Books()
      reads this
    {
      Tail(consumed) == [] && events == Events(Lines(consumed))
    }

    ghost predicate Valid()
      reads this, inbuf
    {
      Shape() && Books() && received == consumed + Buffered()
    }

    constructor (tls: bool)
      ensures Valid() && received == [] && consumed == [] && events == [] && fresh(inbuf) && this.tls == tls
    {
      this.tls := tls;
      inbuf := new byte[BUFFER_SIZE];
      inbufLen, inputRetryPending, inputWantWrite := 0, false, false;
      received, consumed, events := [], [], [];
      new;
      AllTail([]);
    }

    /** In every state a run can reach, the events are a fixed function of the stream. */
    lemma Independent()
      requires Valid()
      ensures Lines(consumed) <= Lines(received)
      ensures NL !in Buffered() ==> events == Events(Lines(received))
    {
      EventsOfStream(received, consumed, Buffered());
    }

    /**
     read_client: append what the socket yields, as far as it fits. A full buffer is
     the only reason to give up besides the end or the failure of the stream; a TLS
     read that has to wait is noted, a plain one is not.
     */
    method Read(socket: Socket) returns (disconnect: bool)
      requires Valid()
      modifies this`inbufLen, this`received, this`inputRetryPending, this`inputWantWrite, inbuf
      ensures Valid() && unchanged(this`consumed, this`events)
      ensures disconnect <==> old(inbufLen) == BUFFER_SIZE - 1 || socket.Lost? || socket == Yields([])
      ensures received ==
              old(received)
              + if disconnect || !socket.Yields? then []
                else socket.bytes[..Min(|socket.bytes|, BUFFER_SIZE - 1 - old(inbufLen))]
      ensures disconnect || !tls ==>
                inputRetryPending == old(inputRetryPending) && inputWantWrite == old(inputWantWrite)
      ensures !disconnect && tls ==>
                inputRetryPending == !socket.Yields? && inputWantWrite == socket.WantsWrite?
    {
      hide Lines, Tail, Events;
      if inbufLen >= BUFFER_SIZE - 1 {
        return true;
      }
      var available := BUFFER_SIZE - inbufLen - 1;
      if socket.WantsRead? || socket.WantsWrite? {
        if tls {
          inputRetryPending, inputWantWrite := true, socket.WantsWrite?;
        }
        return false;
      }
      if socket.Lost? || |socket.bytes| == 0 {
        return true;
      }
      if tls {
        inputRetryPending, inputWantWrite := false, false;
      }
      Append(socket.bytes[..Min(|socket.bytes|, available)]);
      disconnect := false;
    }

    /** The bytes a read stored behind the buffered ones. */
    method Append(bytes: Bytes)
      requires Valid() && inbufLen + |bytes| < BUFFER_SIZE
      modifies this`inbufLen, this`received, inbuf
      ensures Valid() && received == old(received) + bytes && inbufLen == old(inbufLen) + |bytes|
    {
      hide Lines, Tail, Events;
      var base := inbufLen;
      ghost var before := Buffered();
      forall i | 0 <= i < |bytes| {
        inbuf[base + i] := bytes[i];
      }
      inbufLen := inbufLen + |bytes|;
      received := received + bytes;
      assert Buffered() == before + bytes;
    }

    /** memmove of the unconsumed bytes to the front. */
    method Shift(offset: nat)
      requires Shape() && offset <= inbufLen
      modifies inbuf, this`inbufLen
      ensures Shape() && Buffered() == old(Buffered())[offset..]
    {
      forall i | 0 <= i < inbufLen - offset {
        inbuf[i] := inbuf[offset + i];
      }
      inbufLen := inbufLen - offset;
    }

    /**
     The body of the line loop for one raw line: report it as too long, hand it to
     the command layer, skip it when blank, or refuse it. The command layer may end
     the connection.
     */
    method HandleLine(raw: Bytes) returns (outcome: Outcome)
      modifies this`events
      ensures outcome == Kept || outcome == Rejected || outcome == Stopped
      ensures outcome == Rejected <==> Judge(raw) == Violation
      ensures outcome == Stopped ==> Judge(raw).Dispatch?
      ensures events == old(events) + if Judge(raw).Violation? || Judge(raw).Blank? then [] else [Judge(raw)]
      ensures Answered(raw, old(events), events)
    {
      forall line: Bytes | Framed(raw, line) && line != []
        ensures Judge(raw) == if WellSized(line) then Dispatch(line) else if line[0] == AT then TooLong else Violation
      {
        JudgeExact(raw, line);
        FramedContent(raw, line);
      }
      var lineLength := |raw|;
      if lineLength > 0 && raw[lineLength - 1] == CR {
        lineLength := lineLength - 1;
      }
      if 0 in raw || CR in raw[..lineLength] {
        return Rejected;
      }
      assert raw[..lineLength] == Content(raw);
      if !Fits(raw[..lineLength]) {
        if raw[0] != AT {
          return Rejected;
        }
        events := events + [TooLong];
        return Kept;
      }
      var line := raw[..lineLength];
      if line != [] {
        events := events + [Dispatch(line)];
        var stop: bool := *;
        if stop {
          return Stopped;
        }
      }
      outcome := Kept;
    }

    /** One line off the front of the unprocessed rest. */
    method TakeLine(ghost rest: Bytes, raw: Bytes) returns (outcome: Outcome)
      requires Books() && received == consumed + rest
      requires |raw| < |rest| && rest[..|raw|] == raw && rest[|raw|] == NL && NL !in raw
      modifies this`events, this`consumed
      ensures outcome == Kept || outcome == Rejected || outcome == Stopped
      ensures Tame(received) ==> outcome != Rejected
      ensures outcome == Rejected ==> Judge(raw) == Violation
      ensures outcome == Stopped ==> Judge(raw).Dispatch?
      ensures outcome != Rejected ==> Books() && received == consumed + rest[|raw| + 1..]
      ensures outcome != Rejected ==> |Lines(consumed)| == |Lines(old(consumed))| + 1
      ensures Lines(rest) == [raw] + Lines(rest[|raw| + 1..])
    {
      hide Judge, Answered, Tame, Lines, Tail, Events;
      LineTaken(received, consumed, rest, raw);
      outcome := HandleLine(raw);
      if outcome != Rejected {
        EventsGrow(Lines(consumed), raw);
        consumed := consumed + raw + [NL];
      }
    }

    /** memchr for a line end in the buffer. */
    method MemchrNewline(from: nat) returns (n: nat)
      requires Shape() && from <= inbufLen
      ensures from <= n <= inbufLen && NL !in inbuf[from..n]
      ensures n < inbufLen ==> inbuf[n] == NL
    {
      n := from;
      while n < inbufLen && inbuf[n] != NL
        invariant from <= n <= inbufLen && NL !in inbuf[from..n]
      {
        n := n + 1;
      }
    }

    /** The end of process_buffered_lines: the partial-line check and the pending flag. */
    method AfterLines() returns (outcome: Outcome, pending: bool)
      requires Valid()
      ensures outcome == Kept || outcome == PartialRejected
      ensures outcome == PartialRejected <==> PartialOverlong(Buffered())
      ensures outcome == Kept ==> pending == (NL in Buffered())
      ensures outcome == Kept && NL !in Buffered() ==> inbufLen <= INPUT_LINE_MAX + 1
      ensures Tame(received) ==> outcome == Kept
    {
      hide Judge, Fits, Events;
      var newline := MemchrNewline(0);
      assert inbuf[0..newline] == Buffered()[..newline];
      var limit := if inbufLen > 0 && inbuf[0] == AT then INPUT_LINE_MAX else LINE_CONTENT_MAX;
      assert newline == inbufLen ==> Buffered() == inbuf[0..newline];
      if inbufLen > limit + 1 && newline == inbufLen {
        LinesConcat(consumed, Buffered());
        AllTail(Buffered());
        return PartialRejected, false;
      }
      pending := newline < inbufLen;
      assert pending ==> Buffered()[newline] == NL;
      outcome := Kept;
    }

    /**
     The line loop of process_buffered_lines; offset is where the unprocessed rest
     of the buffer begins.
     */
    method CutLines(budget: nat) returns (outcome: Outcome, offset: nat, left: nat)
      requires Valid()
      modifies this`events, this`consumed
      ensures outcome == Kept || outcome == Rejected || outcome == Stopped
      ensures Tame(received) ==> outcome != Rejected
      ensures Explained(outcome, Lines(Buffered()))
      ensures outcome != Rejected ==> Books() && offset <= inbufLen && received == consumed + Buffered()[offset..]
      ensures left <= budget && (outcome == Kept && left < budget ==> offset > 0)
      ensures outcome == Kept ==> |Lines(consumed)| - |Lines(old(consumed))| == budget - left
      ensures outcome == Kept ==> budget - left == Min(Min(CLIENT_BUDGET, budget), |Lines(Buffered())|)
    {
      hide Judge, Fits, Tame, Lines, Tail, Events;
      ghost var whole := Buffered();
      var handled := 0;
      offset, left := 0, budget;
      assert whole[0..] == whole;
      while handled < CLIENT_BUDGET && left > 0 && offset < inbufLen
        invariant 0 <= offset <= inbufLen && 0 <= handled <= CLIENT_BUDGET && left + handled == budget
        invariant Books() && received == consumed + whole[offset..]
        invariant |Lines(consumed)| == |Lines(old(consumed))| + handled
        invariant handled <= |Lines(whole)| && Lines(whole)[handled..] == Lines(whole[offset..])
        invariant handled > 0 ==> offset > 0
        decreases inbufLen - offset
      {
        var newline := MemchrNewline(offset);
        if newline == inbufLen {
          assert inbuf[offset..newline] == whole[offset..];
          AllTail(whole[offset..]);
          return Kept, offset, left;
        }
        var raw := inbuf[offset..newline];
        assert whole[offset..][..|raw|] == raw && whole[offset..][|raw|] == NL;
        assert whole[offset..][|raw| + 1..] == whole[newline + 1..];
        outcome := TakeLine(whole[offset..], raw);
        assert Lines(whole)[handled] == Lines(whole)[handled..][0] == raw;
        assert Lines(whole)[handled + 1..] == Lines(whole)[handled..][1..];
        if outcome == Rejected {
          return;
        }
        offset := newline + 1;
        handled, left := handled + 1, left - 1;
        if outcome == Stopped {
          return;
        }
      }
      if offset == inbufLen {
        AllTail(whole[offset..]);
      }
      outcome := Kept;
    }

    /**
     process_buffered_lines. It cuts as many lines as the budgets allow and then
     refuses exactly an overlong partial line. For a stream of acceptable lines it
     ends the connection only when a command does so, and after a call with budget
     left such a stream always has room for more input.
     */
    method ProcessBufferedLines(budget: nat) returns (outcome: Outcome, pending: bool, left: nat)
      requires Valid()
      modifies this`events, this`consumed, this`inbufLen, inbuf
      ensures outcome != Rejected ==> Valid()
      ensures outcome == Kept ==> pending == (NL in Buffered())
      ensures outcome == Kept || outcome == PartialRejected ==>
                && (outcome == PartialRejected <==> PartialOverlong(Buffered()))
                && |Lines(consumed)| - |Lines(old(consumed))| == budget - left
                && budget - left == Min(Min(CLIENT_BUDGET, budget), |Lines(old(Buffered()))|)
      ensures Explained(outcome, Lines(old(Buffered())))
      ensures Tame(received) ==> outcome == Kept || outcome == Stopped
      ensures Tame(received) && budget > 0 && outcome == Kept ==> inbufLen < BUFFER_SIZE - 1
    {
      hide Judge, Fits, Tame, Tail, Events, Explained;
      ghost var whole := Buffered();
      var offset;
      outcome, offset, left := CutLines(budget);
      pending := false;
      if outcome == Rejected {
        return;
      }
      Shift(offset);
      if outcome == Stopped {
        return;
      }
      outcome, pending := AfterLines();
      KeptExplained(outcome, Lines(whole));
      if left == budget && budget > 0 && offset == 0 {
        assert Buffered() == whole;
        NothingCut(whole);
      }
    }
  }

  /** A refusal comes from a line that deserves it, and only a dispatched command ends the connection. */
  ghost predicate Explained(outcome: Outcome, lines: seq<Bytes>) {
    && (outcome == Rejected ==> exists i :: 0 <= i < |lines| && Judge(lines[i]) == Violation)
    && (outcome == Stopped ==> exists i :: 0 <= i < |lines| && Judge(lines[i]).Dispatch?)
  }

  lemma KeptExplained(outcome: Outcome, lines: seq<Bytes>)
    requires outcome != Rejected && outcome != Stopped
    ensures Explained(outcome, lines)
  {
  }

  // ---------------------------------------------------------------- where cuts and budgets matter

  const LETTER: byte := 'a' as int

  /** A tagged line of 5000 bytes without a space. */
  function OverlongTags(): (raw: Bytes)
    ensures |raw| == 5000 && raw[0] == AT && forall i :: 0 < i < |raw| ==> raw[i] == LETTER
  {
    seq(5000, i => if i == 0 then AT else LETTER)
  }

  /** Whole it is skipped as too long; its first 4608 bytes alone are refused. */
  lemma OverlongJudged()
    ensures NL !in OverlongTags() && Judge(OverlongTags()) == TooLong
    ensures PartialOverlong(OverlongTags()[..INPUT_LINE_MAX + 2])
  {
    hide OverlongTags;
    var raw := OverlongTags();
    assert forall i :: 0 <= i < |raw| ==> raw[i] == AT || raw[i] == LETTER;
    assert Content(raw) == raw;
    assert Find(raw, SPACE, 0) == |raw|;
  }

  /** A client that has read the given bytes and nothing else. */
  method Received(bytes: Bytes) returns (client: Client)
    requires 0 < |bytes| < BUFFER_SIZE
    ensures fresh(client) && fresh(client.inbuf) && client.Valid()
    ensures client.received == client.Buffered() == bytes && client.consumed == [] && client.events == []
  {
    hide Lines, Tail, Events;
    client := new Client(false);
    var gone := client.Read(Yields(bytes));
    assert bytes[..|bytes|] == bytes;
    assert client.received == [] + bytes == bytes;
    assert client.received == [] + client.Buffered() == client.Buffered();
  }

  /** The line in one piece: it is answered and skipped, and nothing is left of it. */
  method WholeSkipped() returns (client: Client, outcome: Outcome)
    ensures fresh(client) && fresh(client.inbuf) && client.Valid()
    ensures client.received == OverlongTags() + [NL] == client.consumed
    ensures outcome == Kept && client.events == [TooLong] && client.inbufLen == 0
  {
    hide OverlongTags, Judge, PartialOverlong, Lines, Tail, Events, Explained;
    OverlongJudged();
    AllTail([]);
    var raw := OverlongTags();
    OneLine(raw);
    client := Received(raw + [NL]);
    var pending, left;
    outcome, pending, left := client.ProcessBufferedLines(CLIENT_BUDGET);
    SkippedWhole(raw, outcome);
    WholeLineTaken(client.received, client.consumed, client.Buffered(), raw);
    assert client.consumed + [] == client.consumed;
  }

  /** The same line cut: its first bytes end the connection with nothing answered and nothing consumed. */
  method CutRejected() returns (client: Client, outcome: Outcome)
    ensures fresh(client) && fresh(client.inbuf) && client.Valid()
    ensures client.received == client.Buffered() == OverlongTags()[..INPUT_LINE_MAX + 2]
    ensures outcome == PartialRejected && PartialOverlong(client.Buffered()) && client.events == []
  {
    hide OverlongTags, Judge, PartialOverlong, Lines, Tail, Explained;
    OverlongJudged();
    var head := OverlongTags()[..INPUT_LINE_MAX + 2];
    AllTail([]);
    AllTail(head);
    client := Received(head);
    var pending, left;
    outcome, pending, left := client.ProcessBufferedLines(CLIENT_BUDGET);
    NotExplained(outcome);
    NothingConsumed(client.received, client.consumed, client.Buffered());
  }

  lemma NotExplained(outcome: Outcome)
    requires Explained(outcome, [])
    ensures outcome != Rejected && outcome != Stopped
  {
  }

  lemma SkippedWhole(raw: Bytes, outcome: Outcome)
    requires Judge(raw) == TooLong && Explained(outcome, [raw])
    ensures outcome != Rejected && outcome != Stopped && !PartialOverlong([])
  {
    hide Judge;
  }

  /** A stream of one line whose only line was consumed leaves nothing. */
  lemma WholeLineTaken(received: Bytes, consumed: Bytes, buffered: Bytes, raw: Bytes)
    requires NL !in raw && received == raw + [NL] == consumed + buffered
    requires Tail(consumed) == [] && |Lines(consumed)| == 1
    ensures buffered == [] && Lines(consumed) == [raw]
    ensures Judge(raw) == TooLong ==> Events(Lines(consumed)) == [TooLong]
  {
    hide Lines, Tail, Judge;
    OneLine(raw);
    LinesConcat(consumed, buffered);
    assert Lines(consumed) + Lines(buffered) == [raw];
    assert Lines(buffered) == [];
    NothingCut(buffered);
    AllTail(buffered);
    assert [raw][..0] == [];
  }

  lemma NothingConsumed(received: Bytes, consumed: Bytes, buffered: Bytes)
    requires received == consumed + buffered && Tail(consumed) == [] && Lines(consumed) == []
    ensures buffered == received
  {
    hide Lines, Tail;
    NothingCut(consumed);
    AllTail(consumed);
  }

  /** Nothing but line ends. */
  function Blanks(n: nat): (s: Bytes)
    ensures |s| == n && forall i :: 0 <= i < n ==> s[i] == NL
  {
    seq(n, _ => NL)
  }

  lemma {:induction false} BlanksLines(n: nat)
    ensures Tail(Blanks(n)) == [] && forall i :: 0 <= i < |Lines(Blanks(n))| ==> Lines(Blanks(n))[i] == []
  {
    hide Blanks, Find, Lines, Tail;
    var s := Blanks(n);
    if n == 0 {
      AllTail(s);
    } else {
      BlanksLines(n - 1);
      FindUnique(s, 0);
      HeadLine(s);
      assert s[1..] == Blanks(n - 1) && s[..0] == [];
    }
  }

  lemma BlanksTame(n: nat)
    ensures Tame(Blanks(n))
  {
    hide Blanks, Find, Lines, Tail;
    BlanksLines(n);
    assert Judge([]) == Blank;
  }

  /**
   A stream of acceptable lines is not safe from read_client: when a read fills the
   buffer and no pass reaches the client before the next one, the connection ends.
   */
  method FullBufferEnds(incoming: Bytes) returns (client: Client, filled: bool, ended: bool)
    ensures fresh(client) && fresh(client.inbuf) && client.Valid()
    ensures Tame(client.received) && client.inbufLen == BUFFER_SIZE - 1 && client.consumed == []
    ensures !filled && ended
  {
    hide Blanks, Tame, Lines, Tail, Events;
    client := new Client(false);
    var bytes := Blanks(BUFFER_SIZE - 1);
    BlanksTame(BUFFER_SIZE - 1);
    filled := client.Read(Yields(bytes));
    assert bytes[..|bytes|] == bytes;
    assert client.received == [] + bytes == bytes;
    assert client.received == [] + client.Buffered() == client.Buffered();
    ended := client.Read(Yields(incoming));
    assert client.received == bytes + [] == bytes;
    assert client.received == [] + client.Buffered() == client.Buffered();
  }
}
