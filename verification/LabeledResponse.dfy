/**
 IRCv3 labeled responses of client.c: the tag text functions, the line sender that
 opens a batch on the first reply and tags the rest, and begin, end and suppress.
 What a command sends is kept as a log of the lines handed to client_send_raw.
 */
module LabeledResponse {
  import opened Arithmetic
  import opened Text
  import TagRelay

  const COMBINED_TAG_SECTION_MAX: nat := 8191
  const FORMAT_BUFFER_SIZE: nat := COMBINED_TAG_SECTION_MAX + LINE_CONTENT_MAX + 3
  const SERVER_NAME_MAX: nat := 63
  const SERIALS: nat := 0xFFFF_FFFF_FFFF_FFFF
  const UINT_RANGE: nat := 0x1_0000_0000
  const AT: CChar := '@' as int
  const SPACE: CChar := ' ' as int
  const SEMICOLON: CChar := ';' as int
  const CR: CChar := 13
  const NL: CChar := 10
  const COLON: CChar := ':' as int

  // ---------------------------------------------------------------- tag text

  function Ascii(s: string): (r: CString)
    requires forall i :: 0 <= i < |s| ==> 0 < s[i] as int < 128
    ensures |r| == |s| && forall i :: 0 <= i < |s| ==> r[i] == s[i] as int
  {
    seq(|s|, i requires 0 <= i < |s| => s[i] as int)
  }

  /** Offset of the first space, or the length. */
  function FirstSpace(line: CString): (i: nat)
    ensures i <= |line|
    ensures i < |line| ==> line[i] == SPACE
    ensures forall n :: 0 <= n < i ==> line[n] != SPACE
  {
    if line == [] || line[0] == SPACE then 0 else 1 + FirstSpace(line[1..])
  }

  /** A line with a tag section: an at sign and a space somewhere after it. */
  predicate IsTagged(line: CString) { At(line, 0) == AT && FirstSpace(line) < |line| }

  function Section(line: CString): CString
    requires IsTagged(line)
  {
    line[1..FirstSpace(line)]
  }

  function TagsOf(line: CString): seq<CString> {
    if IsTagged(line) then TagRelay.Tokens(Section(line), 0) else []
  }

  /** The message behind the tags. */
  function Body(line: CString): CString {
    if IsTagged(line) then line[FirstSpace(line) + 1..] else line
  }

  predicate AnyKey(tags: seq<CString>, wanted: CString) {
    exists i :: 0 <= i < |tags| && TagRelay.Key(tags[i]) == wanted
  }

  /** client_line_content_fits */
  predicate Fits(line: CString) {
    && CR !in line && NL !in line
    && if At(line, 0) != AT then |line| <= LINE_CONTENT_MAX
       else
         var space := FirstSpace(line);
         space < |line| && space != 1 && space + 1 <= COMBINED_TAG_SECTION_MAX && |line| - space - 1 <= LINE_CONTENT_MAX
  }

  /** prepend_tag, before its size check. */
  function Prepend(tag: CString, line: CString): CString {
    if At(line, 0) == AT then [AT] + tag + [SEMICOLON] + line[1..] else [AT] + tag + [SPACE] + line
  }

  function PrependTag(tag: CString, line: CString): Option<CString> {
    var r := Prepend(tag, line);
    if |r| < FORMAT_BUFFER_SIZE then Some(r) else None
  }

  /** Text that can stand in a tag section as one token. */
  predicate OneTag(s: CString) { s != [] && SPACE !in s && SEMICOLON !in s }

  /** The text of a tagged line. */
  function TaggedLine(section: CString, body: CString): CString { [AT] + section + [SPACE] + body }

  /** Writing a tag section and reading it back. */
  lemma TaggedLineRead(section: CString, body: CString)
    requires SPACE !in section
    ensures var line := TaggedLine(section, body);
            IsTagged(line) && Section(line) == section && Body(line) == body
  {
    hide FirstSpace;
    var line := TaggedLine(section, body);
    forall n | 1 <= n <= |section| ensures line[n] != SPACE {
      assert line[n] == section[n - 1];
    }
    assert line[|section| + 1] == SPACE;
    assert FirstSpace(line) == |section| + 1;
  }

  lemma TaggedLineWritten(line: CString)
    requires IsTagged(line)
    ensures SPACE !in Section(line) && line == TaggedLine(Section(line), Body(line))
  {
    hide FirstSpace;
    var section := Section(line);
    assert forall n :: 0 <= n < |section| ==> section[n] == line[n + 1];
  }

  /** Tokens from the middle of a text are the tokens of the rest. */
  lemma {:induction false} TokensShift(a: CString, s: CString, i: nat)
    requires i <= |s|
    ensures TagRelay.Tokens(a + s, |a| + i) == TagRelay.Tokens(s, i)
    decreases |s| - i
  {
    hide TagRelay.Tokens, TagRelay.Skip;
    var t := a + s;
    SkipShift(a, s, i, true);
    TagRelay.TokensHead(s, i);
    TagRelay.TokensHead(t, |a| + i);
    var b := TagRelay.Skip(s, i, true);
    if b < |s| {
      SkipShift(a, s, b, false);
      var e := TagRelay.Skip(s, b, false);
      SliceShift(a, s, b, e);
      TokensShift(a, s, e);
    }
  }

  lemma SliceShift(a: CString, s: CString, b: nat, e: nat)
    requires b <= e <= |s|
    ensures (a + s)[|a| + b..|a| + e] == s[b..e]
  {
  }

  lemma {:induction false} SkipShift(a: CString, s: CString, i: nat, separators: bool)
    requires i <= |s|
    ensures TagRelay.Skip(a + s, |a| + i, separators) == |a| + TagRelay.Skip(s, i, separators)
    decreases |s| - i
  {
    if i < |s| && (s[i] == TagRelay.SEPARATOR) == separators {
      SkipShift(a, s, i + 1, separators);
    }
  }

  lemma {:induction false} SkipTag(tag: CString, s: CString, i: nat)
    requires SEMICOLON !in tag && i <= |tag| && (s == [] || s[0] == SEMICOLON)
    ensures TagRelay.Skip(tag + s, i, false) == |tag|
    decreases |tag| - i
  {
    if i < |tag| {
      assert (tag + s)[i] == tag[i];
      SkipTag(tag, s, i + 1);
    }
  }

  /** A tag in front of a section becomes its first token. */
  lemma TokensPrepend(tag: CString, s: CString)
    requires OneTag(tag) && (s == [] || s[0] == SEMICOLON)
    ensures TagRelay.Tokens(tag + s, 0) == [tag] + if s == [] then [] else TagRelay.Tokens(s[1..], 0)
  {
    hide TagRelay.Tokens, TagRelay.Skip;
    var t := tag + s;
    TagRelay.TokensHead(t, 0);
    assert t[0] == tag[0] && tag[0] in tag;
    assert TagRelay.Skip(t, 0, true) == 0;
    SkipTag(tag, s, 0);
    assert t[0..|tag|] == tag;
    if s == [] {
    } else {
      TagRelay.TokensSkipOne(t, |tag|);
      var a := tag + [SEMICOLON];
      assert t == a + s[1..];
      TokensShift(a, s[1..], 0);
    }
  }

  /** A tagged line has the new tag, keeps all its own tags behind it, and says the same. */
  lemma PrependKeeps(tag: CString, line: CString)
    requires OneTag(tag) && (At(line, 0) == AT ==> IsTagged(line))
    ensures var r := Prepend(tag, line);
            IsTagged(r) && TagsOf(r) == [tag] + TagsOf(line) && Body(r) == Body(line)
  {
    hide TagRelay.Tokens, FirstSpace, IsTagged, Section;
    if At(line, 0) == AT {
      var section, body := Section(line), Body(line);
      TaggedLineWritten(line);
      assert Prepend(tag, line) == TaggedLine(tag + ([SEMICOLON] + section), body);
      TaggedLineRead(tag + ([SEMICOLON] + section), body);
      TokensPrepend(tag, [SEMICOLON] + section);
      assert ([SEMICOLON] + section)[1..] == section;
    } else {
      assert !IsTagged(line) by {
        NotTagged(line);
      }
      assert Prepend(tag, line) == TaggedLine(tag, line);
      TaggedLineRead(tag, line);
      TokensPrepend(tag, []);
      assert tag + [] == tag;
    }
  }

  lemma NotTagged(line: CString)
    requires At(line, 0) != AT
    ensures !IsTagged(line)
  {
  }

  /** A line that has a tag section after tagging had a space if it had an at sign. */
  lemma TaggedBefore(tag: CString, line: CString)
    requires OneTag(tag) && IsTagged(Prepend(tag, line))
    ensures At(line, 0) == AT ==> IsTagged(line)
  {
    hide FirstSpace;
    if At(line, 0) == AT {
      var r := Prepend(tag, line);
      var i := FirstSpace(r);
      forall n | 1 <= n <= |tag| ensures r[n] != SPACE {
        assert r[n] == tag[n - 1];
      }
      assert i > 1 + |tag|;
      assert r[i] == line[i - 1 - |tag|];
    }
  }

  /** line_has_tag */
  method LineHasTag(line: CString, wanted: CString) returns (r: bool)
    requires wanted != []
    ensures r <==> AnyKey(TagsOf(line), wanted)
  {
    hide TagRelay.Tokens, TagRelay.Skip, TagRelay.KeyLength;
    if At(line, 0) != AT || FirstSpace(line) == |line| {
      return false;
    }
    var section := Section(line);
    var cursor := 0;
    while cursor < |section|
      invariant 0 <= cursor <= |section|
      invariant AnyKey(TagsOf(line), wanted) <==> AnyKey(TagRelay.Tokens(section, cursor), wanted)
      decreases |section| - cursor
    {
      var end := TagRelay.Skip(section, cursor, false);
      var token := section[cursor..end];
      NextTag(section, cursor, wanted);
      if TagRelay.Key(token) == wanted {
        return true;
      }
      cursor := if end < |section| then end + 1 else end;
    }
    TagRelay.TokensHead(section, cursor);
    r := false;
  }

  /** One step of the token loop: empty pieces have no key. */
  lemma NextTag(s: CString, i: nat, wanted: CString)
    requires i < |s| && wanted != []
    ensures var e := TagRelay.Skip(s, i, false);
            var next := if e < |s| then e + 1 else e;
            AnyKey(TagRelay.Tokens(s, i), wanted) <==>
              TagRelay.Key(s[i..e]) == wanted || AnyKey(TagRelay.Tokens(s, next), wanted)
  {
    hide TagRelay.Tokens, TagRelay.Skip, AnyKey;
    var e := TagRelay.Skip(s, i, false);
    if s[i] == SEMICOLON {
      TagRelay.TokensSkipOne(s, i);
      assert s[i..e] == [];
    } else {
      assert TagRelay.Skip(s, i, true) == i;
      TagRelay.TokensHead(s, i);
      AnyKeyCons(s[i..e], TagRelay.Tokens(s, e), wanted);
      if e < |s| {
        TagRelay.TokensSkipOne(s, e);
      }
    }
  }

  lemma AnyKeyCons(t: CString, tags: seq<CString>, wanted: CString)
    ensures AnyKey([t] + tags, wanted) <==> TagRelay.Key(t) == wanted || AnyKey(tags, wanted)
  {
    var all := [t] + tags;
    if AnyKey(tags, wanted) {
      var i :| 0 <= i < |tags| && TagRelay.Key(tags[i]) == wanted;
      assert all[i + 1] == tags[i];
    }
    if TagRelay.Key(t) == wanted {
      assert all[0] == t;
    }
  }

  // ---------------------------------------------------------------- batch identifiers

  function Digit(d: nat): CChar
    requires d < 16
  {
    if d < 10 then '0' as int + d else 'a' as int + (d - 10)
  }

  function Hex(n: nat): (h: CString)
    ensures h != []
  {
    if n < 16 then [Digit(n)] else Hex(n / 16) + [Digit(n % 16)]
  }

  function Id(serial: nat): CString { ['l' as int] + Hex(serial) }

  /** The number hexadecimal text stands for. */
  function HexValue(h: CString): int {
    if h == [] then 0
    else
      var c := h[|h| - 1];
      HexValue(h[..|h| - 1]) * 16 + if c >= 'a' as int then c - 'a' as int + 10 else c - '0' as int
  }

  lemma {:induction false} HexRead(n: nat)
    ensures HexValue(Hex(n)) == n
  {
    var h := Hex(n);
    if n < 16 {
      assert h[..0] == [];
    } else {
      HexRead(n / 16);
      assert h[..|h| - 1] == Hex(n / 16);
    }
  }

  lemma {:induction false} HexInjective(m: nat, n: nat)
    requires Hex(m) == Hex(n)
    ensures m == n
  {
    var h := Hex(m);
    assert h[|h| - 1] == Digit(m % 16) == Digit(n % 16);
    if m >= 16 && n >= 16 {
      assert h[..|h| - 1] == Hex(m / 16) == Hex(n / 16);
      HexInjective(m / 16, n / 16);
    }
  }

  /** The next serial number: 64 bits, never zero. */
  function Next(s: nat): nat {
    var t := (s + 1) % (SERIALS + 1);
    if t == 0 then 1 else t
  }

  /** The serial number after n batches have been opened. */
  function After(s: nat, n: nat): nat {
    if n == 0 then s else Next(After(s, n - 1))
  }

  lemma {:induction false} AfterClosed(s: nat, n: nat)
    requires s <= SERIALS && n > 0
    ensures After(s, n) == 1 + Rest(s + n - 1, SERIALS)
  {
    hide Rest, Next;
    if n == 1 {
      assert After(s, 0) == s;
      FirstClosed(s);
    } else {
      AfterClosed(s, n - 1);
      NextClosed(s + n - 2);
    }
  }

  lemma FirstClosed(s: nat)
    requires s <= SERIALS
    ensures Next(s) == 1 + Rest(s, SERIALS)
  {
    hide Rest, Quotient;
    DivUnique(s, if s < SERIALS then 0 else 1, SERIALS, if s < SERIALS then s else 0);
  }

  lemma NextClosed(x: nat)
    ensures Next(1 + Rest(x, SERIALS)) == 1 + Rest(x + 1, SERIALS)
  {
    hide Rest;
    RestStep(x, SERIALS);
  }

  /** Two batches have one identifier exactly when a whole cycle of serial numbers lies between them. */
  lemma IdsRepeatExactly(s: nat, i: nat, j: nat)
    requires s <= SERIALS && 0 < i <= j
    ensures Id(After(s, i)) == Id(After(s, j)) <==> Rest(j - i, SERIALS) == 0
  {
    hide Rest, After, Hex;
    AfterClosed(s, i);
    AfterClosed(s, j);
    RestEqual(s + i - 1, s + j - 1, SERIALS);
    if Id(After(s, i)) == Id(After(s, j)) {
      assert Id(After(s, i))[1..] == Hex(After(s, i)) && Id(After(s, j))[1..] == Hex(After(s, j));
      HexInjective(After(s, i), After(s, j));
    }
  }

  predicate HexDigit(c: CChar) { '0' as int <= c <= '9' as int || 'a' as int <= c <= 'f' as int }

  lemma {:induction false} HexDigits(n: nat, digits: nat)
    requires digits > 0 && n < Pow16(digits)
    ensures |Hex(n)| <= digits && forall i :: 0 <= i < |Hex(n)| ==> HexDigit(Hex(n)[i])
  {
    if n >= 16 {
      HexDigits(n / 16, digits - 1);
    }
  }

  function Pow16(n: nat): nat { if n == 0 then 1 else 16 * Pow16(n - 1) }

  /** Text without a space, separator or line break. */
  predicate Plain(s: CString) { SPACE !in s && SEMICOLON !in s && CR !in s && NL !in s }

  lemma IdText(n: nat)
    requires n <= SERIALS
    ensures Plain(Id(n)) && 0 < |Id(n)| <= 17
  {
    assert Pow16(4) == 0x1_0000;
    assert Pow16(8) == 0x1_0000_0000;
    assert Pow16(12) == 0x1_0000_0000_0000;
    assert Pow16(16) == SERIALS + 1;
    HexDigits(n, 16);
    var id := Id(n);
    forall i | 0 <= i < |id| ensures id[i] == 'l' as int || HexDigit(id[i]) {
      if i > 0 {
        assert id[i] == Hex(n)[i - 1];
      }
    }
  }

  // ---------------------------------------------------------------- lines of a labeled response

  const BATCH: CString := Ascii("batch")
  const BATCH_EQ: CString := Ascii("batch=")
  const TIME: CString := Ascii("time")
  const TIME_EQ: CString := Ascii("time=")
  const EPOCH: CString := Ascii("1970-01-01T00:00:00.000Z")

  function OpeningLine(echo: CString, server: CString, id: CString): CString {
    Ascii("@label=") + echo + (Ascii(" :") + server) + (Ascii(" BATCH +") + id + Ascii(" labeled-response"))
  }

  function ClosingLine(server: CString, id: CString): CString {
    Ascii(":") + server + Ascii(" BATCH -") + id
  }

  function AckLine(echo: CString, server: CString): CString {
    Ascii("@label=") + echo + Ascii(" :") + server + Ascii(" ACK")
  }

  predicate LabelText(s: CString) { Plain(s) && 0 < |s| <= TagRelay.LABEL_ENCODED_MAX }

  predicate ServerText(s: CString) { NoBreak(s) && |s| <= SERVER_NAME_MAX }

  predicate IdLike(s: CString) { Plain(s) && 0 < |s| <= 17 }

  predicate NoBreak(s: CString) { CR !in s && NL !in s }

  lemma NoBreakConcat(a: CString, b: CString)
    ensures NoBreak(a + b) <==> NoBreak(a) && NoBreak(b)
  {
    assert forall c :: c in a + b <==> c in a || c in b;
  }

  /** A tagged line of moderate size fits. */
  lemma TaggedFits(section: CString, body: CString)
    requires Plain(section) && NoBreak(body) && 0 < |section| <= 200 && |body| <= LINE_CONTENT_MAX
    ensures Fits(TaggedLine(section, body))
  {
    hide FirstSpace;
    TaggedLineRead(section, body);
    TaggedLineWritten(TaggedLine(section, body));
    NoBreakConcat([AT], section);
    NoBreakConcat([AT] + section, [SPACE]);
    NoBreakConcat([AT] + section + [SPACE], body);
  }

  lemma PlainConcat(a: CString, b: CString)
    ensures Plain(a + b) <==> Plain(a) && Plain(b)
  {
    assert forall c :: c in a + b <==> c in a || c in b;
  }

  /** The three lines the server composes always fit. */
  lemma ComposedFit(echo: CString, server: CString, id: CString)
    requires LabelText(echo) && ServerText(server) && IdLike(id)
    ensures Fits(OpeningLine(echo, server, id)) && Fits(AckLine(echo, server)) && Fits(ClosingLine(server, id))
  {
    hide Fits;
    OpeningFits(echo, server, id);
    AckFits(echo, server);
    ClosingFits(server, id);
  }

  lemma LiteralText(s: string)
    requires forall i :: 0 <= i < |s| ==> 0 < s[i] as int < 128 && s[i] != '\r' && s[i] != '\n'
    ensures NoBreak(Ascii(s))
    ensures (forall i :: 0 <= i < |s| ==> s[i] != ' ' && s[i] != ';') ==> Plain(Ascii(s))
  {
  }

  lemma LabelSection(echo: CString)
    requires LabelText(echo)
    ensures Plain(Ascii("label=") + echo)
  {
    hide Plain;
    LiteralText("label=");
    PlainConcat(Ascii("label="), echo);
  }

  lemma OpeningFits(echo: CString, server: CString, id: CString)
    requires LabelText(echo) && ServerText(server) && IdLike(id)
    ensures Fits(OpeningLine(echo, server, id))
  {
    hide Fits, Ascii, Plain, NoBreak, OpeningLine, OpeningBody, TaggedLine, ServerText, IdLike;
    LabelSection(echo);
    OpeningBodyText(server, id);
    TaggedFits(Ascii("label=") + echo, OpeningBody(server, id));
    OpeningTagged(echo, server, id);
  }

  lemma OpeningTagged(echo: CString, server: CString, id: CString)
    ensures OpeningLine(echo, server, id) == TaggedLine(Ascii("label=") + echo, OpeningBody(server, id))
  {
    hide Ascii;
    TaggedLiteral();
    TaggedParts(Ascii("label="), echo, Ascii(":") + server, Ascii(" BATCH +") + id + Ascii(" labeled-response"));
  }

  function OpeningBody(server: CString, id: CString): CString {
    Ascii(":") + server + (Ascii(" BATCH +") + id + Ascii(" labeled-response"))
  }

  lemma OpeningBodyText(server: CString, id: CString)
    requires ServerText(server) && IdLike(id)
    ensures NoBreak(OpeningBody(server, id)) && |OpeningBody(server, id)| <= 200
  {
    hide Plain, NoBreak, Ascii;
    var tail := Ascii(" BATCH +") + id;
    LiteralText(":");
    LiteralText(" BATCH +");
    LiteralText(" labeled-response");
    PlainNoBreak(id);
    NoBreakConcat(Ascii(":"), server);
    NoBreakConcat(Ascii(" BATCH +"), id);
    NoBreakConcat(tail, Ascii(" labeled-response"));
    NoBreakConcat(Ascii(":") + server, tail + Ascii(" labeled-response"));
  }

  lemma TaggedParts(key: CString, echo: CString, head: CString, tail: CString)
    ensures [AT] + key + echo + [SPACE] + head + tail == TaggedLine(key + echo, head + tail)
  {
  }

  lemma PlainNoBreak(s: CString)
    requires Plain(s)
    ensures NoBreak(s)
  {
  }

  lemma TaggedLiteral()
    ensures Ascii("@label=") == [AT] + Ascii("label=")
    ensures Ascii(" :") == [SPACE] + Ascii(":")
  {
  }

  lemma AckFits(echo: CString, server: CString)
    requires LabelText(echo) && ServerText(server)
    ensures Fits(AckLine(echo, server))
  {
    hide Fits, Ascii;
    var section, body := Ascii("label=") + echo, Ascii(":") + server + Ascii(" ACK");
    LabelSection(echo);
    assert NoBreak(body) by {
      hide Plain, NoBreak;
      LiteralText(":");
      LiteralText(" ACK");
      NoBreakConcat(Ascii(":"), server);
      NoBreakConcat(Ascii(":") + server, Ascii(" ACK"));
    }
    TaggedFits(section, body);
    TaggedLiteral();
    assert AckLine(echo, server) == TaggedLine(section, body);
  }

  lemma ClosingFits(server: CString, id: CString)
    requires ServerText(server) && IdLike(id)
    ensures Fits(ClosingLine(server, id))
  {
    var colon := Ascii(":");
    NoBreakConcat(colon, server);
    NoBreakConcat(colon + server, Ascii(" BATCH -"));
    NoBreakConcat(colon + server + Ascii(" BATCH -"), id);
    assert ClosingLine(server, id)[0] == ':' as int;
  }

  // ---------------------------------------------------------------- the composed lines as a client reads them

  const LABEL_EQ: CString := Ascii("label=")
  const BATCH_COMMAND: CString := Ascii("BATCH")
  const ACK_COMMAND: CString := Ascii("ACK")
  const BATCH_TYPE: CString := Ascii("labeled-response")
  const PLUS: CChar := '+' as int
  const MINUS: CChar := '-' as int

  /** The words of a text: its non-empty pieces between spaces. */
  function Words(s: CString): seq<CString>
    decreases |s|
  {
    if s == [] then []
    else if s[0] == SPACE then Words(s[1..])
    else var n := FirstSpace(s); [s[..n]] + Words(s[n..])
  }

  /** The message comes from the server and consists of these words. */
  ghost predicate Says(text: CString, server: CString, words: seq<CString>) {
    var body := Body(text);
    && |body| > |server| && body[..|server| + 1] == [COLON] + server
    && Words(body[|server| + 1..]) == words
  }

  /** One more word in front. */
  lemma WordsCons(w: CString, rest: CString)
    requires w != [] && SPACE !in w && (rest == [] || rest[0] == SPACE)
    ensures Words([SPACE] + w + rest) == [w] + Words(rest)
  {
    hide FirstSpace;
    var s := w + rest;
    assert ([SPACE] + w + rest)[1..] == s;
    assert s[0] == w[0] && w[0] in w;
    forall n | 0 <= n < |w| ensures s[n] != SPACE {
      assert s[n] == w[n];
    }
    assert rest != [] ==> s[|w|] == rest[0];
    assert FirstSpace(s) == |w|;
    assert s[..|w|] == w && s[|w|..] == rest;
  }

  lemma OneWord(w: CString)
    requires w != [] && SPACE !in w
    ensures Words([SPACE] + w) == [w]
  {
    WordsCons(w, []);
    assert [SPACE] + w + [] == [SPACE] + w;
  }

  lemma LiteralWords()
    ensures Ascii(" BATCH +") == [SPACE] + BATCH_COMMAND + [SPACE] + [PLUS]
    ensures Ascii(" BATCH -") == [SPACE] + BATCH_COMMAND + [SPACE] + [MINUS]
    ensures Ascii(" labeled-response") == [SPACE] + BATCH_TYPE && Ascii(" ACK") == [SPACE] + ACK_COMMAND
    ensures Ascii(":") == [COLON] && Ascii(" :") == [SPACE] + [COLON] && Ascii("@label=") == [AT] + LABEL_EQ
    ensures SPACE !in BATCH_COMMAND && SPACE !in BATCH_TYPE && SPACE !in ACK_COMMAND
    ensures |BATCH_COMMAND| == 5 && |BATCH_TYPE| == 16 && |ACK_COMMAND| == 3
  {
    hide Ascii;
    LiteralBatch();
    LiteralType();
    LiteralRest();
  }

  lemma LiteralBatch()
    ensures Ascii(" BATCH +") == [SPACE] + BATCH_COMMAND + [SPACE] + [PLUS]
    ensures Ascii(" BATCH -") == [SPACE] + BATCH_COMMAND + [SPACE] + [MINUS]
    ensures SPACE !in BATCH_COMMAND && |BATCH_COMMAND| == 5
  {
    assert BATCH_COMMAND == Ascii("BATCH");
  }

  lemma LiteralType()
    ensures Ascii(" labeled-response") == [SPACE] + BATCH_TYPE && SPACE !in BATCH_TYPE && |BATCH_TYPE| == 16
  {
    assert BATCH_TYPE == Ascii("labeled-response");
  }

  lemma LiteralRest()
    ensures Ascii(" ACK") == [SPACE] + ACK_COMMAND && SPACE !in ACK_COMMAND && |ACK_COMMAND| == 3
    ensures Ascii(":") == [COLON] && Ascii(" :") == [SPACE] + [COLON] && Ascii("@label=") == [AT] + LABEL_EQ
  {
    assert ACK_COMMAND == Ascii("ACK") && LABEL_EQ == Ascii("label=");
  }

  /** The words a batch line consists of. */
  lemma BatchWords(sign: CChar, id: CString, rest: CString)
    requires sign != SPACE && SPACE !in id && (rest == [] || rest[0] == SPACE)
    ensures Words([SPACE] + BATCH_COMMAND + ([SPACE] + ([sign] + id) + rest)) ==
            [BATCH_COMMAND] + ([[sign] + id] + Words(rest))
  {
    hide Words;
    LiteralWords();
    WordsCons([sign] + id, rest);
    WordsCons(BATCH_COMMAND, [SPACE] + ([sign] + id) + rest);
  }

  /** A tag section of one tag. */
  lemma OneTagRead(tag: CString, body: CString)
    requires OneTag(tag)
    ensures TagsOf(TaggedLine(tag, body)) == [tag] && Body(TaggedLine(tag, body)) == body
  {
    hide TagRelay.Tokens, FirstSpace;
    TaggedLineRead(tag, body);
    TokensPrepend(tag, []);
    assert tag + [] == tag;
  }

  lemma LabelIsTag(echo: CString)
    requires LabelText(echo)
    ensures OneTag(LABEL_EQ + echo)
  {
    LabelSection(echo);
    assert (LABEL_EQ + echo)[0] == LABEL_EQ[0];
  }

  /** What follows the server name in each composed line. */
  function OpeningTail(id: CString): CString {
    [SPACE] + BATCH_COMMAND + ([SPACE] + ([PLUS] + id) + ([SPACE] + BATCH_TYPE))
  }

  function ClosingTail(id: CString): CString { [SPACE] + BATCH_COMMAND + ([SPACE] + ([MINUS] + id) + []) }

  lemma OpeningParts(echo: CString, server: CString, id: CString)
    ensures OpeningLine(echo, server, id) == TaggedLine(LABEL_EQ + echo, [COLON] + server + OpeningTail(id))
  {
    hide Ascii;
    LiteralWords();
  }

  lemma AckParts(echo: CString, server: CString)
    ensures AckLine(echo, server) == TaggedLine(LABEL_EQ + echo, [COLON] + server + ([SPACE] + ACK_COMMAND))
  {
    hide Ascii;
    LiteralWords();
  }

  lemma ClosingParts(server: CString, id: CString)
    ensures ClosingLine(server, id) == [COLON] + server + ClosingTail(id)
  {
    hide Ascii;
    LiteralWords();
  }

  lemma SaysBody(text: CString, server: CString, tail: CString)
    requires Body(text) == [COLON] + server + tail
    ensures Says(text, server, Words(tail))
  {
    hide Words, Body;
    var body := Body(text);
    assert body[..|server| + 1] == [COLON] + server && body[|server| + 1..] == tail;
  }

  /** The opening line: the label of the command, and the start of the batch. */
  lemma OpeningRead(echo: CString, server: CString, id: CString)
    requires LabelText(echo) && IdLike(id)
    ensures TagsOf(OpeningLine(echo, server, id)) == [LABEL_EQ + echo]
    ensures Says(OpeningLine(echo, server, id), server, [BATCH_COMMAND, [PLUS] + id, BATCH_TYPE])
  {
    hide TagsOf, Body, Words, Says, OpeningLine, LabelText, OneTag, OpeningTail, TaggedLine;
    OpeningParts(echo, server, id);
    LabelIsTag(echo);
    OneTagRead(LABEL_EQ + echo, [COLON] + server + OpeningTail(id));
    OpeningWords(id);
    SaysBody(OpeningLine(echo, server, id), server, OpeningTail(id));
  }

  lemma OpeningWords(id: CString)
    requires IdLike(id)
    ensures Words(OpeningTail(id)) == [BATCH_COMMAND, [PLUS] + id, BATCH_TYPE]
    ensures Words(ClosingTail(id)) == [BATCH_COMMAND, [MINUS] + id]
  {
    hide Words;
    LiteralWords();
    BatchWords(PLUS, id, [SPACE] + BATCH_TYPE);
    OneWord(BATCH_TYPE);
    BatchWords(MINUS, id, []);
    NoWords();
  }

  lemma NoWords()
    ensures Words([]) == []
  {
  }

  /** The acknowledgement: the label of the command and nothing else. */
  lemma AckRead(echo: CString, server: CString)
    requires LabelText(echo)
    ensures TagsOf(AckLine(echo, server)) == [LABEL_EQ + echo]
    ensures Says(AckLine(echo, server), server, [ACK_COMMAND])
  {
    hide TagsOf, Body, Words, Says, AckLine, LabelText, OneTag, TaggedLine;
    AckParts(echo, server);
    LabelIsTag(echo);
    LiteralWords();
    OneTagRead(LABEL_EQ + echo, [COLON] + server + ([SPACE] + ACK_COMMAND));
    OneWord(ACK_COMMAND);
    SaysBody(AckLine(echo, server), server, [SPACE] + ACK_COMMAND);
  }

  /** The closing line: no tags, and the end of the same batch. */
  lemma ClosingRead(server: CString, id: CString)
    requires IdLike(id)
    ensures TagsOf(ClosingLine(server, id)) == []
    ensures Says(ClosingLine(server, id), server, [BATCH_COMMAND, [MINUS] + id])
  {
    hide Words, Says, ClosingLine, ClosingTail;
    var line := ClosingLine(server, id);
    ClosingParts(server, id);
    assert line[0] == COLON;
    NotTagged(line);
    OpeningWords(id);
    SaysBody(line, server, ClosingTail(id));
  }

  // ---------------------------------------------------------------- what reaches the transport

  predicate Timestamp(s: CString) { Plain(s) && |s| == 24 }

  /** A line as it is sent, with a time tag in front when it is wanted, absent and fits. */
  function Outgoing(serverTime: bool, line: CString, stamp: CString): CString {
    if !serverTime || AnyKey(TagsOf(line), TIME) then line
    else
      var stamped := PrependTag(TIME_EQ + stamp, line);
      if stamped.Some? && Fits(stamped.value) then stamped.value else line
  }

  /** The text fits, says what the line says and has its tags, apart from a time tag in front. */
  ghost predicate Delivered(line: CString, text: CString) {
    && Fits(text) && Body(text) == Body(line) && (At(line, 0) == AT ==> IsTagged(line))
    && (TagsOf(text) == TagsOf(line) ||
        (TagsOf(text) != [] && TagRelay.Key(TagsOf(text)[0]) == TIME && TagsOf(text)[1..] == TagsOf(line)))
  }

  lemma {:induction false} KeyOf(key: CString, value: CString)
    requires TagRelay.EQUALS !in key
    ensures TagRelay.Key(key + [TagRelay.EQUALS] + value) == key
  {
    hide TagRelay.KeyLength;
    var t := key + [TagRelay.EQUALS] + value;
    var n := TagRelay.KeyLength(t);
    forall i | 0 <= i < |key| ensures t[i] != TagRelay.EQUALS {
      assert t[i] == key[i];
    }
    assert t[|key|] == TagRelay.EQUALS;
    assert n == |key|;
    assert t[..n] == key;
  }

  lemma TimeTag(stamp: CString)
    requires Timestamp(stamp)
    ensures OneTag(TIME_EQ + stamp) && TagRelay.Key(TIME_EQ + stamp) == TIME
  {
    PlainConcat(TIME_EQ, stamp);
    KeyOf(TIME, stamp);
    assert TIME_EQ == TIME + [TagRelay.EQUALS];
  }

  lemma BatchTag(id: CString)
    requires IdLike(id)
    ensures OneTag(BATCH_EQ + id) && TagRelay.Key(BATCH_EQ + id) == BATCH
  {
    PlainConcat(BATCH_EQ, id);
    KeyOf(BATCH, id);
    assert BATCH_EQ == BATCH + [TagRelay.EQUALS];
  }

  lemma FitsTagged(line: CString)
    requires Fits(line)
    ensures At(line, 0) == AT ==> IsTagged(line)
  {
  }

  lemma PrependStarts(tag: CString, line: CString)
    ensures At(Prepend(tag, line), 0) == AT
  {
  }

  lemma OutgoingDelivered(serverTime: bool, line: CString, stamp: CString)
    requires Timestamp(stamp)
    ensures var text := Outgoing(serverTime, line, stamp);
            (Fits(text) ==> Delivered(line, text)) && (Fits(line) ==> Fits(text))
  {
    hide Fits, TagsOf, Body, Prepend, AnyKey, Timestamp, OneTag, IsTagged;
    if Fits(line) {
      FitsTagged(line);
    }
    if serverTime && !AnyKey(TagsOf(line), TIME) {
      TimeTag(stamp);
      if Fits(Prepend(TIME_EQ + stamp, line)) {
        FitsTagged(Prepend(TIME_EQ + stamp, line));
        PrependStarts(TIME_EQ + stamp, line);
        TaggedBefore(TIME_EQ + stamp, line);
        PrependKeeps(TIME_EQ + stamp, line);
      }
    }
  }

  /**
   A time goes in front of a line exactly when it is wanted, the line has none and
   there is room for it; otherwise the line goes out as it is.
   */
  lemma TimeTagExactly(serverTime: bool, line: CString, stamp: CString)
    requires Timestamp(stamp)
    ensures var text, stamped := Outgoing(serverTime, line, stamp), Prepend(TIME_EQ + stamp, line);
            if serverTime && !AnyKey(TagsOf(line), TIME) && Fits(stamped) then
              TagsOf(text) == [TIME_EQ + stamp] + TagsOf(line) && Body(text) == Body(line)
            else text == line
  {
    hide Fits, TagsOf, Body, Prepend, AnyKey, Timestamp, OneTag, IsTagged;
    var tag := TIME_EQ + stamp;
    if Fits(Prepend(tag, line)) {
      TimeTag(stamp);
      FitsBuffer(Prepend(tag, line));
      FitsTagged(Prepend(tag, line));
      PrependStarts(tag, line);
      TaggedBefore(tag, line);
      PrependKeeps(tag, line);
    }
  }

  /** The size check admits exactly the lines of at most 510 bytes behind tags of at most 8189, without breaks. */
  lemma FitsExactly(line: CString)
    ensures Fits(line) <==>
              && NoBreak(line)
              && (|| (At(line, 0) != AT && |line| <= 510)
                  || exists section, body ::
                       && line == TaggedLine(section, body)
                       && section != [] && SPACE !in section && |section| <= 8189 && |body| <= 510)
  {
    hide FirstSpace;
    if Fits(line) && At(line, 0) == AT {
      TaggedLineWritten(line);
    }
    forall section, body | line == TaggedLine(section, body) && SPACE !in section
      ensures At(line, 0) == AT && IsTagged(line) && FirstSpace(line) == |section| + 1
      ensures |line| == |section| + |body| + 2
    {
      TaggedLineRead(section, body);
    }
  }

  /** What a line handed to the transport was for; a reply remembers what was to be said. */
  datatype Kind = Quiet | Opening(id: CString) | Reply(id: CString, said: CString) | Own | Closing(id: CString) | Ack

  /** A line handed to client_send_raw, the text it went out as, the time it was given, and whether it was taken. */
  datatype Sent = Sent(kind: Kind, line: CString, text: CString, stamp: CString, ok: bool)

  /** The one entry a line makes: its text is the line, with the time in front where that is wanted and fits. */
  ghost predicate Entry(e: Sent, timed: bool, kind: Kind, line: CString) {
    && e.kind == kind && e.line == line
    && Timestamp(e.stamp) && e.text == Outgoing(timed, line, e.stamp) && Fits(e.text)
  }

  /** A line is handed over once or, if it does not fit, perhaps not at all. */
  ghost predicate Handed(p: seq<Sent>, timed: bool, kind: Kind, line: CString) {
    |p| <= 1 && (Fits(line) ==> |p| == 1) && (|p| == 1 ==> Entry(p[0], timed, kind, line))
  }

  /** How a line goes out inside a batch: as it is if it names a batch, otherwise with the tag of this one. */
  ghost predicate Replied(p: seq<Sent>, timed: bool, id: CString, line: CString) {
    if AnyKey(TagsOf(line), BATCH) then Handed(p, timed, Own, line)
    else
      var tagged := PrependTag(BATCH_EQ + id, line);
      if tagged.Some? then Handed(p, timed, Reply(id, line), tagged.value) else p == []
  }

  /**
   What saying a line hands over: the line itself while nothing is labeled or while
   it is suppressed, a reply once the batch is open, and the opening in front of the
   first reply, which goes unsaid only if its opening could not be sent.
   */
  ghost predicate Said(p: seq<Sent>, line: CString, timed: bool, open: bool, begun: bool,
                       id: CString, echo: CString, server: CString)
  {
    if !open then Handed(p, timed, Quiet, line)
    else if begun then Replied(p, timed, id, line)
    else
      && p != [] && Entry(p[0], timed, Opening(id), OpeningLine(echo, server, id))
      && if p[0].ok then Replied(p[1..], timed, id, line) else |p| == 1
  }

  // ---------------------------------------------------------------- what a command does

  datatype Act = Say(line: CString) | Suppress(on: bool) | ServerTime(on: bool)

  /** The suppression counter, an unsigned int that is not taken below zero. */
  function Suppressed(depth: nat, on: bool): nat {
    if on then (depth + 1) % UINT_RANGE else if depth != 0 then depth - 1 else 0
  }

  /** Suppressing and releasing undo each other, and releasing what is not suppressed does nothing. */
  lemma SuppressUndone(depth: nat)
    ensures depth + 1 < UINT_RANGE ==>
              Suppressed(depth, true) > 0 && Suppressed(Suppressed(depth, true), false) == depth
    ensures Suppressed(0, false) == 0
  {
  }

  /** The suppression depth after some acts. */
  function DepthAfter(acts: seq<Act>, depth: nat): nat {
    if acts == [] then depth
    else
      var d := DepthAfter(acts[..|acts| - 1], depth);
      if acts[|acts| - 1].Suppress? then Suppressed(d, acts[|acts| - 1].on) else d
  }

  /** Whether times are wanted after some acts. */
  function TimedAfter(acts: seq<Act>, timed: bool): bool {
    if acts == [] then timed
    else if acts[|acts| - 1].ServerTime? then acts[|acts| - 1].on
    else TimedAfter(acts[..|acts| - 1], timed)
  }

  /** Some line is to be said while nothing is suppressed. */
  predicate Attempted(acts: seq<Act>, depth: nat) {
    acts != [] && (Attempted(acts[..|acts| - 1], depth) || AttemptAt(acts, |acts| - 1, depth))
  }

  predicate AttemptAt(acts: seq<Act>, k: nat, depth: nat)
    requires k < |acts|
  {
    acts[k].Say? && DepthAfter(acts[..k], depth) == 0
  }

  /** Attempted means just that: some act is a line said at depth zero. */
  lemma {:induction false} AttemptedExactly(acts: seq<Act>, depth: nat)
    ensures Attempted(acts, depth) <==> exists k :: 0 <= k < |acts| && AttemptAt(acts, k, depth)
  {
    if acts != [] {
      var front := acts[..|acts| - 1];
      AttemptedExactly(front, depth);
      assert forall k :: 0 <= k < |front| ==> front[..k] == acts[..k];
      if Attempted(front, depth) {
        var k :| 0 <= k < |front| && AttemptAt(front, k, depth);
        assert AttemptAt(acts, k, depth);
      }
      if k :| 0 <= k < |acts| && AttemptAt(acts, k, depth) {
        assert k < |front| ==> AttemptAt(front, k, depth);
      }
    }
  }

  lemma NextAct(acts: seq<Act>, n: nat, depth: nat, timed: bool)
    requires n < |acts|
    ensures Attempted(acts[..n + 1], depth) <==> Attempted(acts[..n], depth) || AttemptAt(acts, n, depth)
    ensures var d := DepthAfter(acts[..n], depth);
            DepthAfter(acts[..n + 1], depth) == if acts[n].Suppress? then Suppressed(d, acts[n].on) else d
    ensures TimedAfter(acts[..n + 1], timed) == if acts[n].ServerTime? then acts[n].on else TimedAfter(acts[..n], timed)
  {
    hide Suppressed;
    assert acts[..n + 1][..n] == acts[..n];
  }

  /** The state a command begins in, and the names its answer uses. */
  datatype Scene = Scene(active: bool, depth: nat, timed: bool, id: CString, echo: CString, server: CString)

  /** At act n nothing is suppressed, and a batch has been begun before it. */
  predicate Open(s: Scene, acts: seq<Act>, n: nat)
    requires n <= |acts|
  {
    s.active && DepthAfter(acts[..n], s.depth) == 0
  }

  predicate Begun(s: Scene, acts: seq<Act>, n: nat)
    requires n <= |acts|
  {
    s.active && Attempted(acts[..n], s.depth)
  }

  /** What act n hands over. */
  ghost predicate Part(p: seq<Sent>, s: Scene, acts: seq<Act>, n: nat)
    requires n < |acts|
  {
    if acts[n].Say? then
      Said(p, acts[n].line, TimedAfter(acts[..n], s.timed), Open(s, acts, n), Begun(s, acts, n), s.id, s.echo, s.server)
    else p == []
  }

  /** The parts are what the acts hand over, one for one. */
  ghost predicate Told(s: Scene, acts: seq<Act>, parts: seq<seq<Sent>>) {
    |parts| <= |acts| && forall n :: 0 <= n < |parts| ==> Part(parts[n], s, acts, n)
  }

  function Flatten(parts: seq<seq<Sent>>): seq<Sent> {
    if parts == [] then [] else Flatten(parts[..|parts| - 1]) + parts[|parts| - 1]
  }

  lemma FlattenNext(parts: seq<seq<Sent>>, p: seq<Sent>)
    ensures Flatten(parts + [p]) == Flatten(parts) + p
  {
    assert (parts + [p])[..|parts|] == parts;
  }

  lemma ToldNext(s: Scene, acts: seq<Act>, parts: seq<seq<Sent>>, p: seq<Sent>)
    requires Told(s, acts, parts) && |parts| < |acts| && Part(p, s, acts, |parts|)
    ensures Told(s, acts, parts + [p])
  {
    hide Part;
  }

  /** Until a batch is begun its name plays no part. */
  lemma ToldRenamed(s: Scene, acts: seq<Act>, parts: seq<seq<Sent>>, id: CString)
    requires Told(s, acts, parts) && !Begun(s, acts, |parts|)
    ensures Told(s.(id := id), acts, parts)
  {
    hide Said, Attempted;
    forall n | 0 <= n < |parts| ensures Part(parts[n], s.(id := id), acts, n) {
      NotBegun(s, acts, |parts|, n);
      if acts[n].Say? {
        SaidQuietly(parts[n], acts[n].line, TimedAfter(acts[..n], s.timed), s, s.(id := id));
      }
    }
  }

  lemma NotBegun(s: Scene, acts: seq<Act>, m: nat, n: nat)
    requires n < m <= |acts| && !Begun(s, acts, m)
    ensures !Begun(s, acts, n) && !(acts[n].Say? && Open(s, acts, n))
  {
    hide DepthAfter, Attempted;
    NextAct(acts, n, s.depth, s.timed);
    AttemptedGrows(acts, n, m, s.depth);
    AttemptedGrows(acts, n + 1, m, s.depth);
  }

  lemma {:induction false} AttemptedGrows(acts: seq<Act>, n: nat, m: nat, depth: nat)
    requires n <= m <= |acts|
    ensures Attempted(acts[..n], depth) ==> Attempted(acts[..m], depth)
    decreases m
  {
    hide DepthAfter, Attempted;
    if n < m {
      AttemptedGrows(acts, n, m - 1, depth);
      NextAct(acts, m - 1, depth, false);
    }
  }

  lemma SaidQuietly(p: seq<Sent>, line: CString, timed: bool, s: Scene, t: Scene)
    ensures Said(p, line, timed, false, false, s.id, s.echo, s.server) <==>
              Said(p, line, timed, false, false, t.id, t.echo, t.server)
  {
  }

  /** Where nothing is labeled only the lines and the time tags matter. */
  lemma ToldUnlabelled(s: Scene, t: Scene, acts: seq<Act>, parts: seq<seq<Sent>>)
    requires Told(s, acts, parts) && !s.active && !t.active && s.timed == t.timed
    ensures Told(t, acts, parts)
  {
    hide Said;
    forall n | 0 <= n < |parts| ensures Part(parts[n], t, acts, n) {
      if acts[n].Say? {
        SaidQuietly(parts[n], acts[n].line, TimedAfter(acts[..n], s.timed), s, t);
      }
    }
  }

  /**
   Where the entries of a labeled command come from: a quiet one is a line said while
   suppressed, a reply or a line with its own batch tag was said unsuppressed, and
   the opening stands with the first line said so.
   */
  lemma EntriesExplained(s: Scene, acts: seq<Act>, parts: seq<seq<Sent>>, n: nat, i: nat)
    requires Told(s, acts, parts) && s.active && n < |parts| && i < |parts[n]|
    ensures var e, depth := parts[n][i], DepthAfter(acts[..n], s.depth);
            match e.kind
            case Quiet => acts[n] == Say(e.line) && depth != 0
            case Opening(id) => id == s.id && i == 0 && AttemptAt(acts, n, s.depth) && !Attempted(acts[..n], s.depth)
            case Reply(id, said) => id == s.id && acts[n] == Say(said) && depth == 0
            case Own => acts[n] == Say(e.line) && depth == 0
            case Closing(_) => false
            case Ack => false
  {
    hide Entry, Fits, TagsOf, AnyKey, Attempted, DepthAfter;
    assert Part(parts[n], s, acts, n);
    EntryKinds(parts[n], acts[n].line, TimedAfter(acts[..n], s.timed), Open(s, acts, n), Begun(s, acts, n), s, i);
  }

  lemma EntryKinds(p: seq<Sent>, line: CString, timed: bool, open: bool, begun: bool, s: Scene, i: nat)
    requires Said(p, line, timed, open, begun, s.id, s.echo, s.server) && i < |p|
    ensures match p[i].kind
            case Quiet => !open && p[i].line == line
            case Opening(id) => open && !begun && i == 0 && id == s.id
            case Reply(id, said) => open && id == s.id && said == line
            case Own => open && p[i].line == line
            case Closing(_) => false
            case Ack => false
  {
    hide Fits, TagsOf, AnyKey, Outgoing, Prepend, Timestamp, OpeningLine;
    if open && !begun && i > 0 {
      assert p[i] == p[1..][i - 1];
    }
  }

  /** The line that is to be handed over for a line said at act n. */
  function Carried(s: Scene, acts: seq<Act>, n: nat): CString
    requires n < |acts| && acts[n].Say?
  {
    var line := acts[n].line;
    if !Open(s, acts, n) || AnyKey(TagsOf(line), BATCH) then line else Prepend(BATCH_EQ + s.id, line)
  }

  /** The entries of an act besides an opening. */
  function Answers(s: Scene, acts: seq<Act>, n: nat, p: seq<Sent>): seq<Sent>
    requires n < |acts|
  {
    if Open(s, acts, n) && !Begun(s, acts, n) && p != [] then p[1..] else p
  }

  /**
   No reply is swallowed or doubled: every line that fits as it is to be carried is
   handed over exactly once, except the first reply when its opening could not be
   sent, and no line is handed over more than once.
   */
  lemma SaidOnce(s: Scene, acts: seq<Act>, parts: seq<seq<Sent>>, n: nat)
    requires Told(s, acts, parts) && n < |parts| && acts[n].Say?
    ensures var rest := Answers(s, acts, n, parts[n]);
            var unopened := Open(s, acts, n) && !Begun(s, acts, n) && !parts[n][0].ok;
            && |rest| <= 1 && (|rest| == 1 ==> rest[0].line == Carried(s, acts, n))
            && (Fits(Carried(s, acts, n)) && !unopened ==> |rest| == 1)
            && (unopened ==> rest == [])
  {
    hide Entry, TagsOf, AnyKey, Attempted, DepthAfter;
    assert Part(parts[n], s, acts, n);
    if Fits(Carried(s, acts, n)) {
      FitsBuffer(Carried(s, acts, n));
    }
    SaidLines(parts[n], acts[n].line, TimedAfter(acts[..n], s.timed), Open(s, acts, n), Begun(s, acts, n), s);
  }

  lemma SaidLines(p: seq<Sent>, line: CString, timed: bool, open: bool, begun: bool, s: Scene)
    requires Said(p, line, timed, open, begun, s.id, s.echo, s.server)
    ensures var rest := if open && !begun && p != [] then p[1..] else p;
            var carried := if !open || AnyKey(TagsOf(line), BATCH) then line else Prepend(BATCH_EQ + s.id, line);
            && (open && !begun ==> p != [])
            && |rest| <= 1 && (|rest| == 1 ==> rest[0].line == carried)
            && (Fits(carried) && |carried| < FORMAT_BUFFER_SIZE && (open && !begun ==> p[0].ok) ==> |rest| == 1)
            && (open && !begun && !p[0].ok ==> rest == [])
  {
    hide Fits, TagsOf, AnyKey, Outgoing, Prepend, Timestamp, OpeningLine;
  }

  // ---------------------------------------------------------------- the shape of an answer

  /** Lines between the opening and the closing of a batch. */
  predicate InBatch(kind: Kind, id: CString) { kind == Quiet || kind == Own || (kind.Reply? && kind.id == id) }

  /** What each kind of line looks like on the wire. */
  ghost predicate Good(e: Sent, echo: CString, server: CString) {
    && Delivered(e.line, e.text)
    && match e.kind
       case Quiet => true
       case Opening(id) =>
         LABEL_EQ + echo in TagsOf(e.text) && Says(e.text, server, [BATCH_COMMAND, [PLUS] + id, BATCH_TYPE])
       case Reply(id, said) => BATCH_EQ + id in TagsOf(e.text) && Body(e.text) == Body(said)
       case Own => AnyKey(TagsOf(e.text), BATCH)
       case Closing(id) => Says(e.text, server, [BATCH_COMMAND, [MINUS] + id])
       case Ack => LABEL_EQ + echo in TagsOf(e.text) && Says(e.text, server, [ACK_COMMAND])
  }

  /** The output of a command so far: quiet lines, then perhaps the opening and lines of its batch. */
  ghost predicate Shaped(out: seq<Sent>, started: bool, opening: nat, id: CString, echo: CString, server: CString) {
    && (forall i :: 0 <= i < |out| ==> Good(out[i], echo, server))
    && (!started ==> forall i :: 0 <= i < |out| ==> out[i].kind == Quiet)
    && (started ==>
          && opening < |out| && out[opening].kind == Opening(id)
          && (forall i :: 0 <= i < opening ==> out[i].kind == Quiet)
          && (forall i :: opening < i < |out| ==> InBatch(out[i].kind, id)))
  }

  lemma ShapedAppend(out: seq<Sent>, e: Sent, started: bool, opening: nat, id: CString, echo: CString, server: CString)
    requires Shaped(out, started, opening, id, echo, server) && Good(e, echo, server)
    requires if started then InBatch(e.kind, id) else e.kind == Quiet
    ensures Shaped(out + [e], started, opening, id, echo, server)
  {
    hide Good;
  }

  lemma ShapedOpens(out: seq<Sent>, e: Sent, opening: nat, id: CString, echo: CString, server: CString)
    requires Shaped(out, false, opening, id, echo, server) && Good(e, echo, server) && e.kind == Opening(id)
    ensures Shaped(out + [e], true, |out|, id, echo, server)
  {
    hide Good;
  }

  lemma EntryDelivered(e: Sent, timed: bool, kind: Kind, line: CString)
    requires Entry(e, timed, kind, line)
    ensures Delivered(line, e.text)
  {
    hide Delivered, Outgoing, Fits, Timestamp;
    OutgoingDelivered(timed, line, e.stamp);
  }

  /** A line with a batch tag of its own still has one when it is sent. */
  lemma OwnKept(line: CString, text: CString)
    requires Delivered(line, text) && AnyKey(TagsOf(line), BATCH)
    ensures AnyKey(TagsOf(text), BATCH)
  {
    hide TagsOf, Fits, Body;
    if TagsOf(text) != TagsOf(line) {
      assert TagsOf(text) == [TagsOf(text)[0]] + TagsOf(line);
      AnyKeyCons(TagsOf(text)[0], TagsOf(line), BATCH);
    }
  }

  /** A reply carries the identifier of the batch and says what was to be said. */
  lemma ReplyCarries(id: CString, said: CString, text: CString)
    requires IdLike(id) && Delivered(Prepend(BATCH_EQ + id, said), text)
    ensures BATCH_EQ + id in TagsOf(text) && Body(text) == Body(said)
  {
    hide TagsOf, Fits, Body, IdLike, OneTag, Prepend, IsTagged;
    var tag := BATCH_EQ + id;
    BatchTag(id);
    PrependStarts(tag, said);
    TaggedBefore(tag, said);
    PrependKeeps(tag, said);
    var tags := TagsOf(Prepend(tag, said));
    assert tags[0] == tag;
    if TagsOf(text) != tags {
      assert TagsOf(text)[1] == tags[0];
    }
  }

  /** What a composed line says and is tagged with is what its text says and is tagged with. */
  lemma ComposedDelivered(line: CString, text: CString, tag: CString, server: CString, words: seq<CString>)
    requires Delivered(line, text) && Says(line, server, words)
    ensures Says(text, server, words) && (tag in TagsOf(line) ==> tag in TagsOf(text))
  {
    hide TagsOf, Fits, Body, Words;
    if tag in TagsOf(line) && TagsOf(text) != TagsOf(line) {
      assert tag in TagsOf(text)[1..];
    }
  }

  lemma QuietShaped(out: seq<Sent>, p: seq<Sent>, timed: bool, line: CString,
                    started: bool, opening: nat, id: CString, echo: CString, server: CString)
    requires Shaped(out, started, opening, id, echo, server) && Handed(p, timed, Quiet, line)
    ensures Shaped(out + p, started, opening, id, echo, server)
  {
    hide Shaped, Delivered, Entry, Fits;
    if p == [] {
      assert out + p == out;
    } else {
      assert p == [p[0]];
      EntryDelivered(p[0], timed, Quiet, line);
      EntryFields(p[0], timed, Quiet, line);
      ShapedAppend(out, p[0], started, opening, id, echo, server);
    }
  }

  lemma EntryFields(e: Sent, timed: bool, kind: Kind, line: CString)
    requires Entry(e, timed, kind, line)
    ensures e.kind == kind && e.line == line
  {
  }

  lemma ReplyShaped(out: seq<Sent>, p: seq<Sent>, timed: bool, line: CString,
                    opening: nat, id: CString, echo: CString, server: CString)
    requires Shaped(out, true, opening, id, echo, server) && Replied(p, timed, id, line) && IdLike(id)
    ensures Shaped(out + p, true, opening, id, echo, server)
  {
    hide Shaped, Delivered, Entry, AnyKey, TagsOf, Body, Prepend, IdLike, Fits;
    if p == [] {
      assert out + p == out;
    } else {
      var own := AnyKey(TagsOf(line), BATCH);
      var kind, carried := if own then Own else Reply(id, line), if own then line else Prepend(BATCH_EQ + id, line);
      assert p == [p[0]];
      EntryDelivered(p[0], timed, kind, carried);
      EntryFields(p[0], timed, kind, carried);
      if own {
        OwnKept(line, p[0].text);
      } else {
        ReplyCarries(id, line, p[0].text);
      }
      ShapedAppend(out, p[0], true, opening, id, echo, server);
    }
  }

  lemma OpeningGood(e: Sent, timed: bool, id: CString, echo: CString, server: CString)
    requires IdLike(id) && LabelText(echo) && Entry(e, timed, Opening(id), OpeningLine(echo, server, id))
    ensures Good(e, echo, server)
  {
    hide Delivered, Entry, OpeningLine, IdLike, LabelText, Says, TagsOf;
    EntryDelivered(e, timed, Opening(id), OpeningLine(echo, server, id));
    OpeningRead(echo, server, id);
    ComposedDelivered(OpeningLine(echo, server, id), e.text, LABEL_EQ + echo, server,
                      [BATCH_COMMAND, [PLUS] + id, BATCH_TYPE]);
    EntryFields(e, timed, Opening(id), OpeningLine(echo, server, id));
  }

  lemma OpeningShaped(out: seq<Sent>, p: seq<Sent>, timed: bool, line: CString,
                      opening: nat, id: CString, echo: CString, server: CString)
    requires Shaped(out, false, opening, id, echo, server) && IdLike(id) && LabelText(echo)
    requires Said(p, line, timed, true, false, id, echo, server)
    ensures Shaped(out + p, true, |out|, id, echo, server)
  {
    hide Shaped, Delivered, Entry, Replied, OpeningLine, IdLike, LabelText, Says, TagsOf;
    var head, rest := p[0], p[1..];
    OpeningGood(head, timed, id, echo, server);
    EntryFields(head, timed, Opening(id), OpeningLine(echo, server, id));
    ShapedOpens(out, head, opening, id, echo, server);
    assert out + [head] + rest == out + p;
    if head.ok {
      ReplyShaped(out + [head], rest, timed, line, |out|, id, echo, server);
    } else {
      assert p == [head];
    }
  }

  lemma NothingShaped(id: CString, echo: CString, server: CString)
    ensures Shaped([], false, 0, id, echo, server)
  {
  }

  /** What is told has the shape of an answer. */
  lemma {:induction false} ToldShaped(s: Scene, acts: seq<Act>, parts: seq<seq<Sent>>) returns (opening: nat)
    requires Told(s, acts, parts) && (Begun(s, acts, |parts|) ==> IdLike(s.id) && LabelText(s.echo))
    ensures Shaped(Flatten(parts), Begun(s, acts, |parts|), opening, s.id, s.echo, s.server)
    decreases |parts|
  {
    hide Shaped, Said, IdLike, LabelText, Attempted, DepthAfter, TimedAfter;
    if parts == [] {
      opening := 0;
      NothingShaped(s.id, s.echo, s.server);
      assert acts[..0] == [] && !Attempted([], s.depth) by {
        AttemptedExactly([], s.depth);
      }
    } else {
      var n := |parts| - 1;
      var front, p := parts[..n], parts[n];
      assert Part(p, s, acts, n);
      NextAct(acts, n, s.depth, s.timed);
      assert forall k :: 0 <= k < n ==> front[k] == parts[k];
      opening := ToldShaped(s, acts, front);
      if !acts[n].Say? {
        assert Flatten(front) + p == Flatten(front);
      } else {
        var next := SaidShaped(Flatten(front), p, acts[n].line, TimedAfter(acts[..n], s.timed),
                               Open(s, acts, n), Begun(s, acts, n), opening, s);
        opening := next;
      }
    }
  }

  lemma SaidShaped(out: seq<Sent>, p: seq<Sent>, line: CString, timed: bool, open: bool, begun: bool,
                   opening: nat, s: Scene)
    returns (next: nat)
    requires Shaped(out, begun, opening, s.id, s.echo, s.server) && (open ==> IdLike(s.id) && LabelText(s.echo))
    requires Said(p, line, timed, open, begun, s.id, s.echo, s.server)
    ensures Shaped(out + p, begun || open, next, s.id, s.echo, s.server)
  {
    hide Shaped, Handed, Replied, IdLike, LabelText, Entry, OpeningLine;
    next := opening;
    if !open {
      QuietShaped(out, p, timed, line, begun, opening, s.id, s.echo, s.server);
    } else if begun {
      ReplyShaped(out, p, timed, line, opening, s.id, s.echo, s.server);
    } else {
      next := |out|;
      OpeningShaped(out, p, timed, line, opening, s.id, s.echo, s.server);
    }
  }

  /** The whole answer to a labeled command. */
  ghost predicate Response(out: seq<Sent>, opens: bool, opening: nat, id: CString, echo: CString, server: CString) {
    && out != [] && Shaped(out[..|out| - 1], opens, opening, id, echo, server)
    && Good(out[|out| - 1], echo, server)
    && out[|out| - 1].kind == if opens then Closing(id) else Ack
  }

  /** The line that ends the answer to a labeled command. */
  function EndLine(opens: bool, id: CString, echo: CString, server: CString): CString {
    if opens then ClosingLine(server, id) else AckLine(echo, server)
  }

  lemma EndsResponse(told: seq<Sent>, e: Sent, timed: bool, opens: bool, opening: nat,
                     id: CString, echo: CString, server: CString)
    requires Shaped(told, opens, opening, id, echo, server) && LabelText(echo) && (opens ==> IdLike(id))
    requires Entry(e, timed, if opens then Closing(id) else Ack, EndLine(opens, id, echo, server))
    ensures Response(told + [e], opens, opening, id, echo, server)
  {
    hide Shaped, Delivered, ClosingLine, AckLine, LabelText, IdLike, Says, TagsOf, Entry;
    EntryDelivered(e, timed, if opens then Closing(id) else Ack, EndLine(opens, id, echo, server));
    EntryFields(e, timed, if opens then Closing(id) else Ack, EndLine(opens, id, echo, server));
    if opens {
      ClosingRead(server, id);
      ComposedDelivered(ClosingLine(server, id), e.text, [], server, [BATCH_COMMAND, [MINUS] + id]);
    } else {
      AckRead(echo, server);
      ComposedDelivered(AckLine(echo, server), e.text, LABEL_EQ + echo, server, [ACK_COMMAND]);
    }
    assert (told + [e])[..|told|] == told;
  }

  /** Everything one command made a client's log grow by, part by part. */
  datatype Answer = Answer(out: seq<Sent>, parts: seq<seq<Sent>>, timed: bool, opens: bool, opening: nat, id: CString)

  function LabelIn(tags: CString): CString { TagRelay.LabelOf(TagRelay.Tokens(tags, 0)) }

  /**
   What a command is answered with: its acts part by part and, if it has a usable
   label, one line more, which makes the whole an acknowledgement or a batch.
   */
  ghost predicate Answered(a: Answer, tags: CString, labeledResponse: bool, serverName: CString, acts: seq<Act>) {
    var echo := LabelIn(tags);
    var labelled := labeledResponse && echo != [];
    && a.opens == (labelled && Attempted(acts, 0))
    && |a.parts| == |acts| && Told(Scene(labelled, 0, a.timed, a.id, echo, serverName), acts, a.parts)
    && if !labelled then a.out == Flatten(a.parts)
       else
         && a.out != [] && a.out[..|a.out| - 1] == Flatten(a.parts)
         && Entry(a.out[|a.out| - 1], TimedAfter(acts, a.timed), if a.opens then Closing(a.id) else Ack,
                  EndLine(a.opens, a.id, echo, serverName))
         && Response(a.out, a.opens, a.opening, a.id, echo, serverName)
  }

  lemma AnsweredLabelled(a: Answer, tags: CString, serverName: CString, acts: seq<Act>, p: seq<Sent>)
    requires LabelIn(tags) != [] && LabelText(LabelIn(tags))
    requires a.opens == Attempted(acts, 0) && (a.opens ==> IdLike(a.id))
    requires |a.parts| == |acts| && Told(Scene(true, 0, a.timed, a.id, LabelIn(tags), serverName), acts, a.parts)
    requires Shaped(Flatten(a.parts), a.opens, a.opening, a.id, LabelIn(tags), serverName)
    requires |p| == 1 && a.out == Flatten(a.parts) + p
    requires Entry(p[0], TimedAfter(acts, a.timed), if a.opens then Closing(a.id) else Ack,
                   EndLine(a.opens, a.id, LabelIn(tags), serverName))
    ensures Answered(a, tags, true, serverName, acts)
  {
    hide Told, Entry, LabelText, IdLike, Attempted, TimedAfter, Flatten, Response, Shaped, LabelIn, EndLine;
    assert p == [p[0]];
    assert a.out[..|a.out| - 1] == Flatten(a.parts) && a.out[|a.out| - 1] == p[0];
    EndsResponse(Flatten(a.parts), p[0], TimedAfter(acts, a.timed), a.opens, a.opening, a.id,
                 LabelIn(tags), serverName);
  }

  lemma AnsweredPlain(a: Answer, tags: CString, labeledResponse: bool, serverName: CString, acts: seq<Act>, s: Scene)
    requires !(labeledResponse && LabelIn(tags) != []) && !a.opens && a.out == Flatten(a.parts)
    requires |a.parts| == |acts| && Told(s, acts, a.parts) && !s.active && s.timed == a.timed
    ensures Answered(a, tags, labeledResponse, serverName, acts)
  {
    hide Told, Attempted, Flatten, LabelIn;
    ToldUnlabelled(s, Scene(false, 0, a.timed, a.id, LabelIn(tags), serverName), acts, a.parts);
  }

  /** An answer opens at most one batch, in one place, and closes it with its last line. */
  lemma OpenedOnce(a: Answer, tags: CString, labeledResponse: bool, serverName: CString, acts: seq<Act>, i: nat)
    requires Answered(a, tags, labeledResponse, serverName, acts) && i < |a.out|
    ensures a.out[i].kind.Opening? <==> a.opens && i == a.opening
    ensures a.out[i].kind.Opening? ==> a.out[i].kind == Opening(a.id)
    ensures a.out[i].kind.Closing? <==> a.opens && i == |a.out| - 1
    ensures a.out[i].kind.Closing? ==> a.out[i].kind == Closing(a.id)
  {
    hide Entry, Good, Part, Attempted, LabelIn;
    var echo := LabelIn(tags);
    var labelled := labeledResponse && echo != [];
    var s := Scene(labelled, 0, a.timed, a.id, echo, serverName);
    if !labelled {
      var opening := ToldShaped(s, acts, a.parts);
    } else if i < |a.out| - 1 {
      assert a.out[i] == a.out[..|a.out| - 1][i];
    }
  }

  // ---------------------------------------------------------------- the code

  /** The serial number shared by all clients. */
  class Serials {
    var value: nat
    ghost const start: nat
    ghost var issued: nat

    ghost predicate Valid()
      reads this
    {
      start <= SERIALS && value <= SERIALS && value == After(start, issued)
    }

    constructor ()
      ensures Valid() && value == start == 0 && issued == 0
    {
      value, start, issued := 0, 0, 0;
    }

    method Advance()
      requires Valid()
      modifies this
      ensures Valid() && issued == old(issued) + 1 && value == Next(old(value)) > 0
    {
      value := (value + 1) % (SERIALS + 1);
      if value == 0 {
        value := value + 1;
      }
      issued := issued + 1;
    }
  }

  class Client {
    var active: bool
    var started: bool
    var suppressed: nat
    var echo: CString
    var batch: CString
    var server: CString
    var serverTime: bool
    const serials: Serials
    ghost var log: seq<Sent>

    ghost predicate Valid()
      reads this, serials
    {
      && serials.Valid()
      && (active ==> LabelText(echo) && ServerText(server))
      && (started ==> active && batch == Id(serials.value) && IdLike(batch))
    }

    ghost predicate Idle()
      reads this
    {
      !active && !started
    }

    constructor (serials: Serials)
      requires serials.Valid()
      ensures Valid() && Idle() && log == [] && this.serials == serials
    {
      active, started, suppressed, serverTime := false, false, 0, false;
      echo, batch, server := [], [], [];
      this.serials := serials;
      log := [];
    }

    /** current_timestamp: some time of day, or the epoch when the clock cannot be read. */
    method CurrentTimestamp() returns (stamp: CString)
      ensures Timestamp(stamp)
    {
      stamp := *;
      if !Timestamp(stamp) {
        stamp := EPOCH;
      }
    }

    /** The tail of client_send_line_internal: time tag, size check, and the hand-over to client_send_raw. */
    method Transmit(line: CString, ghost kind: Kind) returns (rc: int, ghost p: seq<Sent>, ghost stamp: CString)
      modifies this`log
      ensures Timestamp(stamp) && log == old(log) + p && Handed(p, serverTime, kind, line)
      ensures var text := Outgoing(serverTime, line, stamp);
              if Fits(text) then p == [Sent(kind, line, text, stamp, rc != -1)] && (rc == -1 || rc == |text| + 2)
              else p == [] && rc == -1
    {
      hide Fits, TagsOf, AnyKey, Delivered, Prepend, Timestamp;
      var outbound, tagged := line, true;
      var now := CurrentTimestamp();
      stamp, p := now, [];
      if serverTime {
        tagged := LineHasTag(line, TIME);
      }
      if serverTime && !tagged {
        var stamped := PrependTag(TIME_EQ + now, line);
        if stamped.Some? && Fits(stamped.value) {
          outbound := stamped.value;
        }
      }
      OutgoingDelivered(serverTime, line, stamp);
      if !Fits(outbound) {
        return -1, p, stamp;
      }
      FitsBuffer(outbound);
      var taken: bool := *;
      p := [Sent(kind, line, outbound, stamp, taken)];
      log := log + p;
      rc := if taken then |outbound| + 2 else -1;
    }

    /** client_send_line: what a command says to the client. */
    method SendLine(line: CString) returns (rc: int, ghost p: seq<Sent>)
      requires Valid()
      modifies this`started, this`batch, this`log, serials
      ensures Valid() && log == old(log) + p
      ensures var open := active && suppressed == 0;
              && Said(p, line, serverTime, open, old(started), batch, echo, server)
              && started == (old(started) || open)
              && (!open || old(started) ==>
                    && batch == old(batch)
                    && serials.value == old(serials.value) && serials.issued == old(serials.issued))
              && (open && !old(started) ==> serials.issued == old(serials.issued) + 1)
    {
      hide Fits, TagsOf, AnyKey, Entry, Handed, Replied, LabelText, ServerText, IdLike, Id, After, Next, OpeningLine;
      if !active || suppressed != 0 {
        ghost var stamp;
        rc, p, stamp := Transmit(line, Quiet);
        return;
      }
      ghost var head: seq<Sent> := [];
      if !started {
        ghost var e;
        rc, e := OpenBatch();
        head := [e];
        if rc < 0 {
          return -1, head;
        }
      }
      ghost var rest;
      rc, rest := ReplyLine(line);
      p := head + rest;
      assert old(log) + head + rest == old(log) + p;
      assert head == [] ==> p == rest;
      assert head != [] ==> p[0] == head[0] && p[1..] == rest;
    }

    /** The opening of the batch in front of the first reply. */
    method OpenBatch() returns (rc: int, ghost e: Sent)
      requires Valid() && active && !started
      modifies this`started, this`batch, this`log, serials
      ensures Valid() && started && serials.issued == old(serials.issued) + 1
      ensures log == old(log) + [e] && Entry(e, serverTime, Opening(batch), OpeningLine(echo, server, batch))
      ensures Good(e, echo, server)
      ensures e.ok == (rc >= 0)
    {
      hide Fits, TagsOf, AnyKey, LabelText, ServerText, IdLike, Id, After, Next, OpeningLine, Good;
      serials.Advance();
      batch := Id(serials.value);
      IdIsLike(serials.value);
      OpeningFits(echo, server, batch);
      started := true;
      ghost var p, stamp;
      rc, p, stamp := Transmit(OpeningLine(echo, server, batch), Opening(batch));
      e := p[0];
      assert p == [e];
      OpeningGood(e, serverTime, batch, echo, server);
    }

    /** A line inside the batch: unchanged when it names a batch itself, otherwise with the tag of this one. */
    method ReplyLine(line: CString) returns (rc: int, ghost p: seq<Sent>)
      modifies this`log
      ensures log == old(log) + p && Replied(p, serverTime, batch, line)
    {
      hide Fits, TagsOf, AnyKey, Prepend, Handed;
      ghost var stamp;
      var own := LineHasTag(line, BATCH);
      if own {
        rc, p, stamp := Transmit(line, Own);
        return;
      }
      var tagged := PrependTag(BATCH_EQ + batch, line);
      if tagged.None? {
        return -1, [];
      }
      rc, p, stamp := Transmit(tagged.value, Reply(batch, line));
    }

    /** client_labeled_response_begin; the texts are cut to the size of their fields. */
    method Begin(serverName: CString, echo: CString)
      modifies this`active, this`started, this`suppressed, this`batch, this`server, this`echo
      ensures echo == [] ==>
                && active == old(active) && started == old(started) && suppressed == old(suppressed)
                && batch == old(batch) && server == old(server) && this.echo == old(this.echo)
      ensures echo != [] ==>
                && active && !started && suppressed == 0 && batch == []
                && server == Cut(serverName, SERVER_NAME_MAX) && this.echo == Cut(echo, TagRelay.LABEL_ENCODED_MAX)
    {
      if echo == [] {
        return;
      }
      active, started, suppressed, batch := true, false, 0, [];
      server, this.echo := Cut(serverName, SERVER_NAME_MAX), Cut(echo, TagRelay.LABEL_ENCODED_MAX);
    }

    /** client_labeled_response_end: the closing line of the batch, or an acknowledgement when there is none. */
    method End() returns (ghost p: seq<Sent>)
      requires Valid()
      modifies this`active, this`started, this`suppressed, this`batch, this`server, this`echo, this`log
      ensures Valid() && Idle() && log == old(log) + p
      ensures !old(active) ==> p == []
      ensures old(active) ==> suppressed == 0 && batch == [] && server == [] && echo == []
      ensures old(active) ==>
                && |p| == 1
                && Entry(p[0], serverTime, if old(started) then Closing(old(batch)) else Ack,
                         EndLine(old(started), old(batch), old(echo), old(server)))
    {
      hide Fits, Entry, LabelText, ServerText, IdLike, Id, After, ClosingLine, AckLine;
      p := [];
      if !active {
        return;
      }
      active, suppressed := false, 0;
      var rc;
      ghost var stamp;
      if started {
        ClosingFits(server, batch);
        rc, p, stamp := Transmit(ClosingLine(server, batch), Closing(batch));
      } else {
        AckFits(echo, server);
        rc, p, stamp := Transmit(AckLine(echo, server), Ack);
      }
      started, echo, batch, server := false, [], [], [];
    }

    /** client_labeled_response_suppress */
    method SetSuppressed(on: bool)
      modifies this`suppressed
      ensures suppressed == Suppressed(old(suppressed), on)
    {
      if on {
        suppressed := (suppressed + 1) % UINT_RANGE;
      } else if suppressed != 0 {
        suppressed := suppressed - 1;
      }
    }

    /** One thing a command does to the client's output. */
    method Perform(act: Act) returns (ghost p: seq<Sent>)
      requires Valid()
      modifies this`started, this`batch, this`log, this`suppressed, this`serverTime, serials
      ensures Valid() && log == old(log) + p
      ensures var open := active && old(suppressed) == 0;
              && (act.Say? ==> Said(p, act.line, old(serverTime), open, old(started), batch, echo, server))
              && (!act.Say? ==> p == [])
              && started == (old(started) || (open && act.Say?))
      ensures suppressed == if act.Suppress? then Suppressed(old(suppressed), act.on) else old(suppressed)
      ensures serverTime == if act.ServerTime? then act.on else old(serverTime)
      ensures started && !old(started) ==> serials.issued == old(serials.issued) + 1
      ensures started == old(started) ==>
                batch == old(batch) && serials.value == old(serials.value) && serials.issued == old(serials.issued)
    {
      hide Said, IdLike, LabelText, ServerText, Id, After, Suppressed;
      p := [];
      match act
      case Say(line) =>
        var rc;
        rc, p := SendLine(line);
      case Suppress(on) => SetSuppressed(on);
      case ServerTime(on) => serverTime := on;
    }

    /** The scene a client's state sets. */
    function Setting(): Scene
      reads this
    {
      Scene(active, suppressed, serverTime, batch, echo, server)
    }

    /** Everything a command does to the client's output: each act hands over exactly its part. */
    method PerformAll(acts: seq<Act>) returns (ghost parts: seq<seq<Sent>>)
      requires Valid() && !started
      modifies this`started, this`batch, this`log, this`suppressed, this`serverTime, serials
      ensures Valid() && log == old(log) + Flatten(parts)
      ensures |parts| == |acts| && Told(old(Setting()).(id := batch), acts, parts)
      ensures started <==> active && Attempted(acts, old(suppressed))
      ensures serverTime == TimedAfter(acts, old(serverTime))
      ensures serials.issued == old(serials.issued) + if started then 1 else 0
    {
      hide Told, LabelText, ServerText, IdLike, Id, After, Suppressed, Said, Flatten, DepthAfter, TimedAfter, Attempted;
      parts := [];
      ghost var scene := Setting();
      NothingTold(scene, acts);
      for i := 0 to |acts|
        invariant Valid() && |parts| == i && log == old(log) + Flatten(parts)
        invariant Told(scene.(id := batch), acts, parts)
        invariant started <==> Begun(scene, acts, i)
        invariant suppressed == DepthAfter(acts[..i], scene.depth) && serverTime == TimedAfter(acts[..i], scene.timed)
        invariant serials.issued == old(serials.issued) + if started then 1 else 0
      {
        NextAct(acts, i, scene.depth, scene.timed);
        ghost var was := batch;
        ghost var p := Perform(acts[i]);
        if batch != was {
          ToldRenamed(scene.(id := was), acts, parts, batch);
        }
        assert Part(p, scene.(id := batch), acts, i);
        ToldNext(scene.(id := batch), acts, parts, p);
        FlattenNext(parts, p);
        assert old(log) + Flatten(parts) + p == old(log) + (Flatten(parts) + p);
        parts := parts + [p];
      }
      assert acts[..|acts|] == acts;
    }

    /**
     What happens between ircv3_begin_command and ircv3_end_command: a command with a
     usable label is answered by one acknowledgement or one batch, whatever it does.
     */
    method HandleCommand(tags: CString, messageTags: bool, labeledResponse: bool, serverName: CString, acts: seq<Act>)
      returns (clientTags: CString, ghost a: Answer)
      requires Valid() && Idle() && ServerText(serverName)
      requires |tags| <= TagRelay.CLIENT_TAG_DATA_MAX && SPACE !in tags && NoBreak(tags)
      modifies this, serials
      ensures Valid() && Idle() && log == old(log) + a.out
      ensures Answered(a, tags, labeledResponse, serverName, acts) && a.timed == old(serverTime)
      ensures serials.issued == old(serials.issued) + (if a.opens then 1 else 0)
      ensures a.opens ==> a.id == Id(serials.value)
      ensures clientTags ==
              if messageTags then
                TagRelay.Join(TagRelay.Kept(TagRelay.Tokens(tags, 0), |TagRelay.Tokens(tags, 0)|))
              else []
    {
      hide Told, Entry, LabelText, ServerText, NoBreak, IdLike, Id, After, Attempted, TimedAfter, Flatten, Response,
        Shaped, Answered, TagRelay.LabelOf, TagRelay.Tokens, TagRelay.Join, TagRelay.Kept, EndLine;
      var echo;
      clientTags, echo := TagRelay.BeginCommand(tags, messageTags);
      LabelIsText(tags);
      var labelled := labeledResponse && echo != [];
      if labelled {
        Begin(serverName, echo);
        NoCut(serverName, echo);
      }
      ghost var scene := Setting();
      ghost var parts := PerformAll(acts);
      ghost var id, opens := batch, started;
      scene := scene.(id := id);
      ghost var opening := Concluded(scene, acts, parts);
      ghost var p := End();
      assert old(log) + Flatten(parts) + p == old(log) + (Flatten(parts) + p);
      a := Answer(Flatten(parts) + p, parts, old(serverTime), opens, opening, id);
      if labelled {
        AnsweredLabelled(a, tags, serverName, acts, p);
      } else {
        AnsweredPlain(a, tags, labeledResponse, serverName, acts, scene);
      }
    }
  }

  lemma NothingTold(s: Scene, acts: seq<Act>)
    ensures Told(s, acts, []) && !Begun(s, acts, 0) && Flatten([]) == []
    ensures DepthAfter(acts[..0], s.depth) == s.depth && TimedAfter(acts[..0], s.timed) == s.timed
  {
  }

  /** The shape of everything told. */
  lemma Concluded(s: Scene, acts: seq<Act>, parts: seq<seq<Sent>>) returns (opening: nat)
    requires Told(s, acts, parts) && |parts| == |acts|
    requires s.active && Attempted(acts, s.depth) ==> IdLike(s.id) && LabelText(s.echo)
    ensures Shaped(Flatten(parts), s.active && Attempted(acts, s.depth), opening, s.id, s.echo, s.server)
  {
    hide Told, IdLike, LabelText, Attempted, Shaped, Flatten;
    assert acts[..|acts|] == acts;
    opening := ToldShaped(s, acts, parts);
  }

  lemma FitsBuffer(line: CString)
    requires Fits(line)
    ensures |line| + 2 < FORMAT_BUFFER_SIZE
    ensures At(line, 0) != AT ==> |line| + 2 <= 512
  {
  }

  lemma IdIsLike(n: nat)
    requires n <= SERIALS
    ensures IdLike(Id(n))
  {
    hide Id, Plain;
    IdText(n);
  }

  function Cut(s: CString, max: nat): CString { if |s| <= max then s else s[..max] }

  lemma {:induction false} TokensPlain(s: CString, i: nat)
    requires i <= |s| && SPACE !in s && NoBreak(s)
    ensures forall n :: 0 <= n < |TagRelay.Tokens(s, i)| ==> Plain(TagRelay.Tokens(s, i)[n])
    decreases |s| - i
  {
    hide TagRelay.Tokens, TagRelay.Skip;
    TagRelay.TokensHead(s, i);
    var b := TagRelay.Skip(s, i, true);
    if b < |s| {
      var e := TagRelay.Skip(s, b, false);
      TokensPlain(s, e);
    }
  }

  lemma {:induction false} LabelOfPlain(ts: seq<CString>)
    requires forall n :: 0 <= n < |ts| ==> Plain(ts[n])
    ensures Plain(TagRelay.LabelOf(ts)) && |TagRelay.LabelOf(ts)| <= TagRelay.LABEL_ENCODED_MAX
  {
    if ts != [] {
      LabelOfPlain(ts[..|ts| - 1]);
    }
  }

  /** A label read from an admitted tag section can be echoed in a tag. */
  lemma LabelIsText(tags: CString)
    requires SPACE !in tags && NoBreak(tags)
    ensures LabelIn(tags) != [] ==> LabelText(LabelIn(tags))
  {
    hide TagRelay.LabelOf, TagRelay.Tokens, Plain, NoBreak;
    TokensPlain(tags, 0);
    LabelOfPlain(TagRelay.Tokens(tags, 0));
  }

  lemma NoCut(server: CString, echo: CString)
    requires ServerText(server) && LabelText(echo)
    ensures Cut(server, SERVER_NAME_MAX) == server && Cut(echo, TagRelay.LABEL_ENCODED_MAX) == echo
  {
  }

  // ---------------------------------------------------------------- runs of commands

  /** A command of one of the clients. */
  datatype Command = Command(client: Client, tags: CString, messageTags: bool, labeledResponse: bool, acts: seq<Act>)

  ghost predicate Admitted(c: Command) {
    |c.tags| <= TagRelay.CLIENT_TAG_DATA_MAX && SPACE !in c.tags && NoBreak(c.tags)
  }

  /** The answers one client got, one after the other. */
  ghost function Heard(commands: seq<Command>, answers: seq<Answer>, client: Client): seq<Sent>
    requires |answers| <= |commands|
  {
    if answers == [] then []
    else
      var n := |answers| - 1;
      Heard(commands, answers[..n], client) + if commands[n].client == client then answers[n].out else []
  }

  /** The names of the batches the answers opened, in order. */
  ghost function BatchIds(answers: seq<Answer>): seq<CString> {
    if answers == [] then []
    else
      var last := answers[|answers| - 1];
      BatchIds(answers[..|answers| - 1]) + if last.opens then [last.id] else []
  }

  lemma HeardNext(commands: seq<Command>, answers: seq<Answer>, a: Answer, client: Client)
    requires |answers| < |commands|
    ensures Heard(commands, answers + [a], client) ==
            Heard(commands, answers, client) + if commands[|answers|].client == client then a.out else []
    ensures BatchIds(answers + [a]) == BatchIds(answers) + if a.opens then [a.id] else []
  {
    assert (answers + [a])[..|answers|] == answers;
  }

  /** Serial numbers in turn: the names differ up to a whole cycle. */
  ghost predicate InTurn(ids: seq<CString>, start: nat, first: nat) {
    forall i :: 0 <= i < |ids| ==> ids[i] == Id(After(start, first + i + 1))
  }

  lemma InTurnDistinct(ids: seq<CString>, start: nat, first: nat)
    requires start <= SERIALS && InTurn(ids, start, first) && |ids| <= SERIALS
    ensures forall i, j :: 0 <= i < j < |ids| ==> ids[i] != ids[j]
  {
    hide Id, After, Rest;
    forall i, j | 0 <= i < j < |ids| ensures ids[i] != ids[j] {
      IdsRepeatExactly(start, first + i + 1, first + j + 1);
      RestSmall(j - i, SERIALS);
    }
  }

  /**
   Any run of commands of any clients that share the serial number: every client's log
   grows by its own answers, one after the other, so no batch reaches into another,
   and the batches of the run are named by the serial numbers in turn, so all their
   names differ until a whole cycle.
   */
  method Session(serials: Serials, serverName: CString, commands: seq<Command>) returns (ghost answers: seq<Answer>)
    requires serials.Valid() && ServerText(serverName)
    requires forall i :: 0 <= i < |commands| ==> Admitted(commands[i]) && commands[i].client.serials == serials
    requires forall i :: 0 <= i < |commands| ==> commands[i].client.Valid() && commands[i].client.Idle()
    modifies serials, set i | 0 <= i < |commands| :: commands[i].client
    ensures serials.Valid()
    ensures forall i :: 0 <= i < |commands| ==> commands[i].client.Valid() && commands[i].client.Idle()
    ensures |answers| == |commands|
    ensures forall i :: 0 <= i < |commands| ==>
              Answered(answers[i], commands[i].tags, commands[i].labeledResponse, serverName, commands[i].acts)
    ensures forall i :: 0 <= i < |commands| ==>
              commands[i].client.log == old(commands[i].client.log) + Heard(commands, answers, commands[i].client)
    ensures var ids := BatchIds(answers);
            && |ids| == serials.issued - old(serials.issued) && InTurn(ids, serials.start, old(serials.issued))
            && (|ids| <= SERIALS ==> forall i, j :: 0 <= i < j < |ids| ==> ids[i] != ids[j])
  {
    hide Id, After, ServerText, NoBreak, LabelText, IdLike, Answered, Heard, BatchIds;
    answers := [];
    ghost var first := serials.issued;
    NothingHeard(commands);
    for k := 0 to |commands|
      invariant serials.Valid() && |answers| == k
      invariant forall i :: 0 <= i < |commands| ==> commands[i].client.Valid() && commands[i].client.Idle()
      invariant forall i :: 0 <= i < k ==>
                  Answered(answers[i], commands[i].tags, commands[i].labeledResponse, serverName, commands[i].acts)
      invariant forall i :: 0 <= i < |commands| ==>
                  commands[i].client.log == old(commands[i].client.log) + Heard(commands, answers, commands[i].client)
      invariant |BatchIds(answers)| == serials.issued - first && InTurn(BatchIds(answers), serials.start, first)
    {
      var c := commands[k];
      var clientTags;
      ghost var a;
      clientTags, a := c.client.HandleCommand(c.tags, c.messageTags, c.labeledResponse, serverName, c.acts);
      forall i | 0 <= i < |commands|
        ensures commands[i].client.log ==
                old(commands[i].client.log) + Heard(commands, answers + [a], commands[i].client)
      {
        HeardNext(commands, answers, a, commands[i].client);
        OneMore(old(commands[i].client.log), Heard(commands, answers, commands[i].client), a.out);
      }
      HeardNext(commands, answers, a, c.client);
      answers := answers + [a];
    }
    if |BatchIds(answers)| <= SERIALS {
      InTurnDistinct(BatchIds(answers), serials.start, first);
    }
  }

  lemma OneMore(a: seq<Sent>, b: seq<Sent>, c: seq<Sent>)
    ensures a + b + c == a + (b + c) && b + [] == b
  {
  }

  lemma NothingHeard(commands: seq<Command>)
    ensures forall c :: Heard(commands, [], c) == []
    ensures BatchIds([]) == []
  {
  }

  lemma RestSmall(x: nat, m: nat)
    requires x < m
    ensures Rest(x, m) == x
  {
  }
}
