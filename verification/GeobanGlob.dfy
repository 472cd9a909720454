/**
 glob_match_ci and class_match of geoban_db.c: a recursive, case-insensitive glob
 matcher with classes, ranges, negation and escapes. Its meaning is given in two
 steps, reading the pattern as a list of tokens and matching tokens against text.
 */
module GeobanGlob {
  import opened Text
  import Glob

  const OPEN: CChar := '[' as int
  const CLOSE: CChar := ']' as int
  const ESCAPE: CChar := '\\' as int
  const DASH: CChar := '-' as int
  const BANG: CChar := '!' as int
  const CARET: CChar := '^' as int

  /** An inclusive range of a class; a single character is a range of one. */
  datatype Span = Span(lo: CChar, hi: CChar)

  datatype Token =
    | Star
    | AnyOne
    | Class(negated: bool, spans: seq<Span>)
    | Lit(c: CChar)
    | Unclosed

  /** Result of reading class members: where the class ended, if it did. */
  datatype Members = Members(spans: seq<Span>, next: Option<nat>)

  /** Step over a backslash that has something to escape. */
  function Unescape(p: CString, i: nat): (j: nat)
    requires i < |p|
    ensures i <= j < |p| && j <= i + 1
  {
    if p[i] == ESCAPE && i + 1 < |p| then i + 1 else i
  }

  /** A dash opens a range unless it is the last member of the class. */
  predicate RangeAt(p: CString, i: nat) {
    At(p, i) == DASH && At(p, i + 1) != 0 && At(p, i + 1) != CLOSE
  }

  function ReadMembers(p: CString, i: nat): (m: Members)
    ensures m.next.Some? ==> i < m.next.value <= |p|
    decreases |p| - i
  {
    if i >= |p| then Members([], None)
    else if p[i] == CLOSE then Members([], Some(i + 1))
    else
      var j := Unescape(p, i);
      if RangeAt(p, j + 1) then
        var k := Unescape(p, j + 2);
        var rest := ReadMembers(p, k + 1);
        Members([Span(p[j], p[k])] + rest.spans, rest.next)
      else
        var rest := ReadMembers(p, j + 1);
        Members([Span(p[j], p[j])] + rest.spans, rest.next)
  }

  predicate NegationAt(p: CString, i: nat) {
    At(p, i) == BANG || At(p, i) == CARET
  }

  function MembersStart(p: CString, i: nat): (j: nat)
    ensures i <= j <= i + 1
  {
    if NegationAt(p, i) then i + 1 else i
  }

  /** The token that starts at offset i and the offset behind it. */
  function HeadToken(p: CString, i: nat): (r: (Token, nat))
    requires i < |p|
    ensures i < r.1 <= |p|
  {
    if p[i] == Glob.STAR then (Star, i + 1)
    else if p[i] == Glob.ANY then (AnyOne, i + 1)
    else if p[i] == OPEN then
      var m := ReadMembers(p, MembersStart(p, i + 1));
      if m.next.None? then (Unclosed, |p|) else (Class(NegationAt(p, i + 1), m.spans), m.next.value)
    else
      var j := Unescape(p, i);
      (Lit(p[j]), j + 1)
  }

  /** The tokens of the pattern from offset i on. */
  function Tokens(p: CString, i: nat): seq<Token>
    decreases |p| - i
  {
    if i >= |p| then []
    else var (tok, next) := HeadToken(p, i); [tok] + Tokens(p, next)
  }

  ghost predicate InSpans(spans: seq<Span>, ch: CChar) {
    exists n :: 0 <= n < |spans| && Lower(spans[n].lo) <= Lower(ch) <= Lower(spans[n].hi)
  }

  /** A single-character token accepts a character; an unclosed class accepts none. */
  ghost predicate Takes(tok: Token, ch: CChar) {
    match tok
    case Star => false
    case AnyOne => true
    case Class(negated, spans) => negated != InSpans(spans, ch)
    case Lit(c) => Lower(c) == Lower(ch)
    case Unclosed => false
  }

  ghost predicate Fits(ts: seq<Token>, t: CString)
    decreases |ts|
  {
    if ts == [] then t == []
    else if ts[0] == Star then exists k :: 0 <= k <= |t| && Fits(ts[1..], t[k..])
    else t != [] && Takes(ts[0], t[0]) && Fits(ts[1..], t[1..])
  }

  lemma SpansCons(s: Span, rest: seq<Span>, ch: CChar)
    ensures InSpans([s] + rest, ch) <==> (Lower(s.lo) <= Lower(ch) <= Lower(s.hi) || InSpans(rest, ch))
  {
    var all := [s] + rest;
    if Lower(s.lo) <= Lower(ch) <= Lower(s.hi) {
      assert all[0] == s;
    }
    if InSpans(rest, ch) {
      var n :| 0 <= n < |rest| && Lower(rest[n].lo) <= Lower(ch) <= Lower(rest[n].hi);
      assert all[n + 1] == rest[n];
    }
  }

  /** One round of class_match's loop: read a member and test the character against it. */
  method ClassMember(p: CString, q: nat, ch: CChar) returns (next: nat, hit: bool)
    requires q < |p| && p[q] != CLOSE
    ensures q < next <= |p|
    ensures ReadMembers(p, q).next == ReadMembers(p, next).next
    ensures InSpans(ReadMembers(p, q).spans, ch) <==> hit || InSpans(ReadMembers(p, next).spans, ch)
  {
    var s := Unescape(p, q);
    var start := Lower(p[s]);
    next := s + 1;
    if At(p, next) == DASH && At(p, next + 1) != 0 && At(p, next + 1) != CLOSE {
      var e := Unescape(p, next + 1);
      var end := Lower(p[e]);
      next := e + 1;
      hit := start <= Lower(ch) <= end;
      SpansCons(Span(p[s], p[e]), ReadMembers(p, next).spans, ch);
    } else {
      hit := Lower(ch) == start;
      SpansCons(Span(p[s], p[s]), ReadMembers(p, next).spans, ch);
    }
  }

  /**
   class_match: -1 for an unterminated class, otherwise membership with the
   pattern cursor moved behind the closing bracket. The cursor movement does not
   depend on the character.
   */
  method ClassMatch(p: CString, i: nat, ch: CChar) returns (rc: int, next: nat)
    requires i <= |p|
    ensures var m := ReadMembers(p, MembersStart(p, i));
            if m.next.None? then rc == -1
            else next == m.next.value && rc == if NegationAt(p, i) != InSpans(m.spans, ch) then 1 else 0
  {
    var negate, matched := false, false;
    var q := i;
    if At(p, q) == BANG || At(p, q) == CARET {
      negate := true;
      q := q + 1;
    }
    ghost var whole := ReadMembers(p, q);
    while At(p, q) != 0 && At(p, q) != CLOSE
      invariant 0 <= q <= |p|
      invariant ReadMembers(p, q).next == whole.next
      invariant InSpans(whole.spans, ch) <==> matched || InSpans(ReadMembers(p, q).spans, ch)
      decreases |p| - q
    {
      var hit;
      q, hit := ClassMember(p, q, ch);
      if hit {
        matched := true;
      }
    }
    if At(p, q) != CLOSE {
      return -1, i;
    }
    next := q + 1;
    rc := if negate != matched then 1 else 0;
  }

  /** The tokens fit some suffix of the text. */
  ghost predicate FitsSuffix(ts: seq<Token>, t: CString) {
    exists k :: 0 <= k <= |t| && Fits(ts, t[k..])
  }

  lemma StarToken(p: CString, i: nat, t: CString)
    requires i < |p| && p[i] == Glob.STAR
    ensures Fits(Tokens(p, i), t) <==> FitsSuffix(Tokens(p, i + 1), t)
  {
    assert Tokens(p, i)[1..] == Tokens(p, i + 1);
  }

  /** Skipping twice is skipping once. */
  lemma SuffixOfSuffix(ts: seq<Token>, t: CString, k: nat)
    requires k <= |t| && FitsSuffix(ts, t[k..])
    ensures FitsSuffix(ts, t)
  {
    hide Fits;
    var m :| 0 <= m <= |t[k..]| && Fits(ts, t[k..][m..]);
    assert t[k..][m..] == t[k + m..];
  }

  lemma SuffixHere(ts: seq<Token>, t: CString)
    requires Fits(ts, t)
    ensures FitsSuffix(ts, t)
  {
    assert t[0..] == t;
  }

  /** A run of stars is one star: it may skip any number of characters. */
  lemma {:induction false} StarRun(p: CString, i: nat, e: nat, t: CString)
    requires i < e <= |p|
    requires forall n :: i <= n < e ==> p[n] == Glob.STAR
    ensures Fits(Tokens(p, i), t) <==> FitsSuffix(Tokens(p, e), t)
    decreases e - i
  {
    hide Fits, Tokens;
    StarToken(p, i, t);
    if i + 1 < e {
      if FitsSuffix(Tokens(p, i + 1), t) {
        var k :| 0 <= k <= |t| && Fits(Tokens(p, i + 1), t[k..]);
        StarRun(p, i + 1, e, t[k..]);
        SuffixOfSuffix(Tokens(p, e), t, k);
      }
      if FitsSuffix(Tokens(p, e), t) {
        StarRun(p, i + 1, e, t);
        SuffixHere(Tokens(p, i + 1), t);
      }
    }
  }

  /** One non-star token consumes one character. */
  lemma StepToken(p: CString, i: nat, next: nat, t: CString, j: nat)
    requires i < |p| && j < |t|
    requires Tokens(p, i) != [] && Tokens(p, i)[0] != Star
    requires Tokens(p, i)[1..] == Tokens(p, next)
    ensures Fits(Tokens(p, i), t[j..]) <==> Takes(Tokens(p, i)[0], t[j]) && Fits(Tokens(p, next), t[j + 1..])
  {
    assert t[j..][1..] == t[j + 1..];
  }

  /** A star-free head cannot match the empty text. */
  lemma NothingLeft(p: CString, i: nat, t: CString, j: nat)
    requires i < |p| && p[i] != Glob.STAR && j == |t|
    ensures !Fits(Tokens(p, i), t[j..])
  {
  }

  /**
   The tail of the star branch: try the rest of the pattern on every suffix, the
   empty one included.
   */
  method TrySuffixes(p: CString, i: nat, t: CString, j: nat) returns (r: bool)
    requires i < |p| && j <= |t|
    ensures r <==> exists k :: 0 <= k <= |t| - j && Fits(Tokens(p, i), t[j..][k..])
    decreases |p| - i, 2
  {
    var q := j;
    while q < |t|
      invariant j <= q <= |t|
      invariant forall k :: 0 <= k < q - j ==> !Fits(Tokens(p, i), t[j..][k..])
    {
      assert t[j..][q - j..] == t[q..];
      var here := GlobMatchFrom(p, i, t, q);
      if here {
        return true;
      }
      q := q + 1;
    }
    assert t[j..][q - j..] == t[q..];
    r := GlobMatchFrom(p, i, t, q);
  }

  /** The star branch: skip the run of stars, then succeed at once or search the suffixes. */
  method StarBranch(p: CString, i: nat, t: CString, j: nat) returns (r: bool)
    requires i < |p| && p[i] == Glob.STAR && j <= |t|
    ensures r <==> Fits(Tokens(p, i), t[j..])
    decreases |p| - i, 0
  {
    var e := i;
    while At(p, e) == Glob.STAR
      invariant i <= e <= |p|
      invariant forall n :: i <= n < e ==> p[n] == Glob.STAR
      decreases |p| - e
    {
      e := e + 1;
    }
    StarRun(p, i, e, t[j..]);
    if e == |p| {
      assert t[j..][|t| - j..] == [];
      return true;
    }
    r := TrySuffixes(p, e, t, j);
  }

  /** The other branches: one pattern token against one character. */
  method OneCharacter(p: CString, i: nat, t: CString, j: nat) returns (ok: bool, next: nat)
    requires i < |p| && p[i] != Glob.STAR && j < |t|
    ensures ok ==> i < next <= |p|
    ensures Fits(Tokens(p, i), t[j..]) <==> ok && Fits(Tokens(p, next), t[j + 1..])
  {
    if p[i] == Glob.ANY {
      ok, next := true, i + 1;
    } else if p[i] == OPEN {
      var rc;
      rc, next := ClassMatch(p, i + 1, t[j]);
      if rc == -1 {
        return false, i;
      }
      ok := rc > 0;
    } else {
      next := Unescape(p, i);
      ok := Lower(p[next]) == Lower(t[j]);
      next := next + 1;
    }
    StepToken(p, i, next, t, j);
  }

  /** glob_match_ci on a pattern and a text cursor. */
  method GlobMatchFrom(p: CString, i: nat, t: CString, j: nat) returns (r: bool)
    requires i <= |p| && j <= |t|
    ensures r <==> Fits(Tokens(p, i), t[j..])
    decreases |p| - i, 1
  {
    var pi, ti := i, j;
    while pi < |p|
      invariant i <= pi <= |p| && 0 <= ti <= |t|
      invariant Fits(Tokens(p, i), t[j..]) <==> Fits(Tokens(p, pi), t[ti..])
      decreases |p| - pi
    {
      if p[pi] == Glob.STAR {
        r := StarBranch(p, pi, t, ti);
        return;
      }
      if ti == |t| {
        NothingLeft(p, pi, t, ti);
        return false;
      }
      var ok, next := OneCharacter(p, pi, t, ti);
      if !ok {
        return false;
      }
      pi, ti := next, ti + 1;
    }
    r := ti == |t|;
  }

  method GlobMatchCi(pattern: CString, text: CString) returns (r: bool)
    ensures r <==> Fits(Tokens(pattern, 0), text)
  {
    assert text[0..] == text;
    r := GlobMatchFrom(pattern, 0, text, 0);
  }

  /** Without classes and escapes the meaning is the plain glob relation of the ban matcher. */
  lemma {:induction false} PlainPatterns(p: CString, i: nat, t: CString)
    requires i <= |p|
    requires forall n :: 0 <= n < |p| ==> p[n] != OPEN && p[n] != ESCAPE
    ensures Fits(Tokens(p, i), t) <==> Glob.Matches(Glob.Ascii, p[i..], t)
    decreases |p| - i
  {
    if i < |p| {
      assert Tokens(p, i)[1..] == Tokens(p, i + 1);
      assert p[i..][1..] == p[i + 1..];
      if p[i] == Glob.STAR {
        forall k | 0 <= k <= |t|
          ensures Fits(Tokens(p, i + 1), t[k..]) <==> Glob.Matches(Glob.Ascii, p[i + 1..], t[k..])
        {
          PlainPatterns(p, i + 1, t[k..]);
        }
      } else if t != [] {
        PlainPatterns(p, i + 1, t[1..]);
      }
    }
  }

  /** The two matchers give the same answer on every pattern without `[` and backslash. */
  method AgreeOnPlainPatterns(pattern: CString, text: CString) returns (geoban: bool, ban: bool)
    requires forall n :: 0 <= n < |pattern| ==> pattern[n] != OPEN && pattern[n] != ESCAPE
    ensures geoban <==> Fits(Tokens(pattern, 0), text)
    ensures ban <==> Glob.Matches(Glob.Ascii, pattern, text)
    ensures geoban == ban
  {
    geoban := GlobMatchCi(pattern, text);
    ban := Glob.WildcardMatch(pattern, text);
    PlainPatterns(pattern, 0, text);
    assert pattern[0..] == pattern;
  }

  /** A pattern with an unterminated class matches no text, whatever precedes the class. */
  lemma {:induction false} UnclosedNeverFits(ts: seq<Token>, t: CString)
    requires Unclosed in ts
    ensures !Fits(ts, t)
    decreases |ts|
  {
    if ts[0] == Star {
      forall k | 0 <= k <= |t| ensures !Fits(ts[1..], t[k..]) {
        UnclosedNeverFits(ts[1..], t[k..]);
      }
    } else if ts[0] != Unclosed && t != [] {
      UnclosedNeverFits(ts[1..], t[1..]);
    }
  }

  // ---------------------------------------------------------------- how patterns are written

  /** A character as it is written, with or without a backslash. */
  datatype Mark = Mark(c: CChar, escaped: bool)

  datatype Member = One(m: Mark) | Range(lo: Mark, hi: Mark)

  datatype Sign = Positive | WithBang | WithCaret

  /** The pieces a pattern is written in; an open set is a class that is never closed. */
  datatype Piece =
    | AnyRun
    | AnyChar
    | Set(sign: Sign, members: seq<Member>)
    | OpenSet(sign: Sign, members: seq<Member>)
    | Char(m: Mark)

  function MarkText(m: Mark): (s: CString)
    ensures 1 <= |s| <= 2
  {
    if m.escaped then [ESCAPE, m.c] else [m.c]
  }

  function MemberText(x: Member): CString {
    match x
    case One(m) => MarkText(m)
    case Range(lo, hi) => MarkText(lo) + ([DASH] + MarkText(hi))
  }

  function MembersText(ms: seq<Member>): CString {
    if ms == [] then [] else MemberText(ms[0]) + MembersText(ms[1..])
  }

  function SignText(sign: Sign): CString {
    match sign
    case Positive => []
    case WithBang => [BANG]
    case WithCaret => [CARET]
  }

  function PieceText(x: Piece): (s: CString)
    ensures s != []
  {
    match x
    case AnyRun => [Glob.STAR]
    case AnyChar => [Glob.ANY]
    case Set(sign, members) => [OPEN] + (SignText(sign) + (MembersText(members) + [CLOSE]))
    case OpenSet(sign, members) => [OPEN] + (SignText(sign) + (MembersText(members) + []))
    case Char(m) => MarkText(m)
  }

  function PatternText(xs: seq<Piece>): CString {
    if xs == [] then [] else PieceText(xs[0]) + PatternText(xs[1..])
  }

  /** A backslash stands for itself only where nothing follows. */
  predicate MarkOk(m: Mark, rest: CString) { m.escaped || m.c != ESCAPE || rest == [] }

  /** Nor does a bracket close the class if it is escaped. */
  predicate InClass(m: Mark, rest: CString) { MarkOk(m, rest) && (m.escaped || m.c != CLOSE) }

  /** A dash that makes a range of what precedes it. */
  predicate Ranging(rest: CString) { |rest| >= 2 && rest[0] == DASH && rest[1] != CLOSE }

  predicate MemberOk(x: Member, rest: CString) {
    match x
    case One(m) => InClass(m, rest) && !Ranging(rest)
    case Range(lo, hi) => InClass(lo, [DASH]) && InClass(hi, rest)
  }

  /** The members are written so that each is read as itself in front of what ends them. */
  predicate MembersOk(ms: seq<Member>, end: CString) {
    if ms == [] then true
    else MembersOk(ms[1..], end) && MemberOk(ms[0], MembersText(ms[1..]) + end)
  }

  /** Without a sign the first character behind the bracket is not one. */
  predicate SignOk(sign: Sign, rest: CString) {
    sign == Positive ==> rest == [] || (rest[0] != BANG && rest[0] != CARET)
  }

  predicate PieceOk(x: Piece, rest: CString) {
    match x
    case AnyRun => true
    case AnyChar => true
    case Set(sign, members) =>
      MembersOk(members, [CLOSE] + rest) && SignOk(sign, MembersText(members) + ([CLOSE] + rest))
    case OpenSet(sign, members) => rest == [] && MembersOk(members, []) && SignOk(sign, MembersText(members) + [])
    case Char(m) => MarkOk(m, rest) && (m.escaped || (m.c != Glob.STAR && m.c != Glob.ANY && m.c != OPEN))
  }

  predicate Written(xs: seq<Piece>) {
    xs == [] || (Written(xs[1..]) && PieceOk(xs[0], PatternText(xs[1..])))
  }

  /** What the pieces mean. */
  function Spans(ms: seq<Member>): seq<Span> {
    if ms == [] then []
    else [SpanOf(ms[0])] + Spans(ms[1..])
  }

  function Meaning(x: Piece): Token {
    match x
    case AnyRun => Star
    case AnyChar => AnyOne
    case Set(sign, members) => Class(sign != Positive, Spans(members))
    case OpenSet(_, _) => Unclosed
    case Char(m) => Lit(m.c)
  }

  function Meanings(xs: seq<Piece>): seq<Token> {
    if xs == [] then [] else [Meaning(xs[0])] + Meanings(xs[1..])
  }

  // ---------------------------------------------------------------- reading what is written

  lemma Suffix(p: CString, i: nat, a: CString, b: CString)
    requires i <= |p| && p[i..] == a + b
    ensures i + |a| <= |p| && p[i + |a|..] == b && |p| == i + |a| + |b|
    ensures forall k :: 0 <= k < |a| ==> p[i + k] == a[k]
  {
    assert |p[i..]| == |a + b|;
    assert p[i + |a|..] == p[i..][|a|..];
    forall k | 0 <= k < |a| ensures p[i + k] == a[k] {
      assert p[i..][k] == (a + b)[k];
    }
  }

  lemma MarkRead(p: CString, i: nat, m: Mark, rest: CString)
    requires i <= |p| && p[i..] == MarkText(m) + rest && MarkOk(m, rest)
    ensures i < |p| && Unescape(p, i) + 1 == i + |MarkText(m)| <= |p|
    ensures p[Unescape(p, i)] == m.c && p[i + |MarkText(m)|..] == rest
    ensures p[i] == MarkText(m)[0]
  {
    Suffix(p, i, MarkText(m), rest);
    assert p[i + 0] == MarkText(m)[0];
    if m.escaped {
      assert p[i + 1] == MarkText(m)[1];
    }
  }

  lemma RangingRead(p: CString, i: nat, rest: CString)
    requires i <= |p| && p[i..] == rest
    ensures RangeAt(p, i) <==> Ranging(rest)
  {
    assert forall k :: 0 <= k < |rest| ==> rest[k] == p[i + k];
    assert |rest| == |p| - i;
    if |rest| >= 2 {
      assert rest[0] == p[i] && rest[1] == p[i + 1];
    }
  }

  /** The members are read back, up to the bracket that closes them or the end of the pattern. */
  lemma {:induction false} MembersRead(p: CString, i: nat, ms: seq<Member>, end: CString)
    requires i <= |p| && p[i..] == MembersText(ms) + end && MembersOk(ms, end)
    requires end == [] || end[0] == CLOSE
    ensures ReadMembers(p, i) == Members(Spans(ms), if end == [] then None else Some(|p| - |end| + 1))
    decreases |ms|
  {
    if ms == [] {
      assert p[i..] == end;
      if end != [] {
        assert p[i] == end[0];
      }
    } else {
      hide ReadMembers, MemberOk, MembersOk, MembersText, MemberText;
      var rest := MembersText(ms[1..]) + end;
      MembersCons(ms, end);
      var next := MemberRead(p, i, ms[0], rest);
      MembersRead(p, next, ms[1..], end);
    }
  }

  function SpanOf(x: Member): Span { if x.One? then Span(x.m.c, x.m.c) else Span(x.lo.c, x.hi.c) }

  lemma MemberRead(p: CString, i: nat, x: Member, rest: CString) returns (next: nat)
    requires i <= |p| && p[i..] == MemberText(x) + rest && MemberOk(x, rest)
    ensures next <= |p| && p[next..] == rest
    ensures var more := ReadMembers(p, next); ReadMembers(p, i) == Members([SpanOf(x)] + more.spans, more.next)
  {
    hide ReadMembers, MarkText, InClass, Ranging;
    match x {
      case One(m) => next := OneRead(p, i, m, rest);
      case Range(lo, hi) =>
        Regroup(MarkText(lo), [DASH], MarkText(hi), rest, []);
        assert rest + [] == rest && MemberText(x) + rest + [] == MemberText(x) + rest;
        next := RangeRead(p, i, lo, hi, rest);
    }
  }

  lemma OneRead(p: CString, i: nat, m: Mark, rest: CString) returns (next: nat)
    requires i <= |p| && p[i..] == MarkText(m) + rest && InClass(m, rest) && !Ranging(rest)
    ensures next <= |p| && p[next..] == rest
    ensures var more := ReadMembers(p, next); ReadMembers(p, i) == Members([Span(m.c, m.c)] + more.spans, more.next)
  {
    hide ReadMembers, Unescape, MarkText, MarkOk, RangeAt, Ranging;
    next := i + |MarkText(m)|;
    MarkRead(p, i, m, rest);
    RangingRead(p, next, rest);
    StartsMember(m, rest);
    ReadOne(p, i, next);
  }

  lemma RangeRead(p: CString, i: nat, lo: Mark, hi: Mark, rest: CString) returns (next: nat)
    requires i <= |p| && p[i..] == MarkText(lo) + ([DASH] + (MarkText(hi) + rest))
    requires InClass(lo, [DASH]) && InClass(hi, rest)
    ensures next <= |p| && p[next..] == rest
    ensures var more := ReadMembers(p, next); ReadMembers(p, i) == Members([Span(lo.c, hi.c)] + more.spans, more.next)
  {
    hide ReadMembers, Unescape, MarkText, RangeAt;
    var tail := MarkText(hi) + rest;
    var dash := i + |MarkText(lo)|;
    MarkRead(p, i, lo, [DASH] + tail);
    Suffix(p, dash, [DASH], tail);
    assert p[dash + 0] == DASH;
    MarkRead(p, dash + 1, hi, rest);
    next := dash + 1 + |MarkText(hi)|;
    StartsMember(lo, [DASH]);
    StartsMember(hi, rest);
    ReadRange(p, i, dash, next);
  }

  lemma MembersCons(ms: seq<Member>, end: CString)
    requires ms != [] && MembersOk(ms, end)
    ensures var rest := MembersText(ms[1..]) + end;
            MembersOk(ms[1..], end) && MemberOk(ms[0], rest) && MembersText(ms) + end == MemberText(ms[0]) + rest
  {
    hide MemberText, MemberOk;
    Regroup(MemberText(ms[0]), [], [], MembersText(ms[1..]), end);
  }

  lemma Regroup(a: CString, b: CString, c: CString, d: CString, e: CString)
    ensures a + (b + c) + d + e == a + (b + (c + (d + e)))
    ensures a + d + e == a + (d + e)
  {
  }

  lemma StartsMember(m: Mark, rest: CString)
    requires InClass(m, rest)
    ensures MarkText(m)[0] != CLOSE
  {
  }

  lemma ReadOne(p: CString, i: nat, next: nat)
    requires i < |p| && p[i] != CLOSE && Unescape(p, i) + 1 == next && !RangeAt(p, next)
    ensures ReadMembers(p, i) ==
            var m := ReadMembers(p, next);
            Members([Span(p[Unescape(p, i)], p[Unescape(p, i)])] + m.spans, m.next)
  {
  }

  lemma ReadRange(p: CString, i: nat, dash: nat, next: nat)
    requires i < |p| && p[i] != CLOSE && Unescape(p, i) + 1 == dash < |p| && p[dash] == DASH
    requires dash + 1 < |p| && p[dash + 1] != CLOSE && Unescape(p, dash + 1) + 1 == next
    ensures ReadMembers(p, i) ==
            var m := ReadMembers(p, next);
            Members([Span(p[Unescape(p, i)], p[Unescape(p, dash + 1)])] + m.spans, m.next)
  {
  }

  /** A class, closed or not, is read back. */
  lemma SetRead(p: CString, i: nat, sign: Sign, members: seq<Member>, end: CString)
    requires i <= |p| && p[i..] == [OPEN] + (SignText(sign) + (MembersText(members) + end))
    requires end == [] || end[0] == CLOSE
    requires MembersOk(members, end) && SignOk(sign, MembersText(members) + end)
    ensures i < |p| && HeadToken(p, i) ==
            if end == [] then (Unclosed, |p|) else (Class(sign != Positive, Spans(members)), |p| - |end| + 1)
  {
    hide ReadMembers, MembersOk, MembersText, SignText, Spans;
    var rest := MembersText(members) + end;
    var start := SignRead(p, i, sign, rest);
    MembersRead(p, start, members, end);
  }

  lemma SignRead(p: CString, i: nat, sign: Sign, rest: CString) returns (start: nat)
    requires i <= |p| && p[i..] == [OPEN] + (SignText(sign) + rest) && SignOk(sign, rest)
    ensures i < |p| && p[i] == OPEN && start <= |p| && p[start..] == rest
    ensures MembersStart(p, i + 1) == start && NegationAt(p, i + 1) == (sign != Positive)
  {
    Suffix(p, i, [OPEN], SignText(sign) + rest);
    assert p[i + 0] == OPEN;
    Suffix(p, i + 1, SignText(sign), rest);
    start := i + 1 + |SignText(sign)|;
    if sign != Positive {
      assert p[i + 1 + 0] == SignText(sign)[0];
    } else if rest != [] {
      assert p[start] == rest[0];
    }
  }

  lemma PieceRead(p: CString, i: nat, x: Piece, rest: CString)
    requires i <= |p| && p[i..] == PieceText(x) + rest && PieceOk(x, rest)
    ensures i < |p| && HeadToken(p, i) == (Meaning(x), |p| - |rest|)
  {
    hide MembersOk, MembersText, HeadToken, SignText, SignOk, MarkText, MarkOk, Spans;
    match x {
      case Set(sign, members) =>
        SetText(sign, MembersText(members), [CLOSE], rest);
        SetRead(p, i, sign, members, [CLOSE] + rest);
      case OpenSet(sign, members) =>
        SetText(sign, MembersText(members), [], rest);
        assert [] + rest == [];
        SetRead(p, i, sign, members, []);
      case Char(m) => CharRead(p, i, m, rest);
      case _ => StarRead(p, i, x, rest);
    }
  }

  lemma SetText(sign: Sign, members: CString, close: CString, rest: CString)
    ensures [OPEN] + (SignText(sign) + (members + close)) + rest ==
            [OPEN] + (SignText(sign) + (members + (close + rest)))
  {
    hide SignText;
  }

  lemma CharRead(p: CString, i: nat, m: Mark, rest: CString)
    requires i <= |p| && p[i..] == MarkText(m) + rest && PieceOk(Char(m), rest)
    ensures i < |p| && HeadToken(p, i) == (Lit(m.c), |p| - |rest|)
  {
    MarkRead(p, i, m, rest);
  }

  lemma StarRead(p: CString, i: nat, x: Piece, rest: CString)
    requires i <= |p| && p[i..] == PieceText(x) + rest && (x.AnyRun? || x.AnyChar?)
    ensures i < |p| && HeadToken(p, i) == (Meaning(x), |p| - |rest|)
  {
    Suffix(p, i, PieceText(x), rest);
    assert p[i + 0] == PieceText(x)[0];
  }

  /**
   What is written is read: however its characters are escaped, wherever ranges and
   single members stand side by side, whichever sign negates a class and whether it
   is ever closed, a pattern is read as the pieces it was written in.
   */
  lemma {:induction false} WrittenIsRead(p: CString, i: nat, xs: seq<Piece>)
    requires i <= |p| && p[i..] == PatternText(xs) && Written(xs)
    ensures Tokens(p, i) == Meanings(xs)
    decreases |xs|
  {
    if xs != [] {
      hide HeadToken, PieceOk, PieceText;
      var rest := PatternText(xs[1..]);
      PieceRead(p, i, xs[0], rest);
      Suffix(p, i, PieceText(xs[0]), rest);
      WrittenIsRead(p, |p| - |rest|, xs[1..]);
    }
  }

  /** An ordinary class of one range. */
  lemma OrdinaryRange(x: CChar, y: CChar)
    requires x != ESCAPE && x != CLOSE && x != BANG && x != CARET && y != ESCAPE && y != CLOSE
    ensures Tokens([OPEN, x, DASH, y, CLOSE], 0) == [Class(false, [Span(x, y)])]
  {
    var range := Range(Mark(x, false), Mark(y, false));
    var p: CString := [OPEN, x, DASH, y, CLOSE];
    OneMember(range, [CLOSE]);
    assert MemberText(range) == [x, DASH, y];
    assert SignText(Positive) + ([x, DASH, y] + [CLOSE]) == [x, DASH, y, CLOSE];
    assert p[0..] == [OPEN] + (SignText(Positive) + (MembersText([range]) + [CLOSE]));
    SetRead(p, 0, Positive, [range], [CLOSE]);
    assert Tokens(p, 5) == [];
  }

  lemma OneMember(x: Member, end: CString)
    requires MemberOk(x, end)
    ensures MembersText([x]) == MemberText(x) && MembersOk([x], end)
    ensures Spans([x]) == [SpanOf(x)]
  {
    var none: seq<Member> := [];
    assert [x][1..] == none && MembersText(none) == [] && MembersText(none) + end == end;
    assert MemberText(x) + [] == MemberText(x);
  }

  // ---------------------------------------------------------------- every pattern is written

  lemma MarkWritten(p: CString, i: nat) returns (m: Mark, next: nat)
    requires i < |p|
    ensures next == i + |MarkText(m)| <= |p| && p[i..] == MarkText(m) + p[next..] && MarkOk(m, p[next..])
    ensures m.escaped == (Unescape(p, i) > i) && next == Unescape(p, i) + 1 && (!m.escaped ==> m.c == p[i])
  {
    m := Mark(p[Unescape(p, i)], Unescape(p, i) > i);
    next := i + |MarkText(m)|;
  }

  lemma MemberWritten(p: CString, i: nat) returns (x: Member, next: nat)
    requires i < |p| && p[i] != CLOSE
    ensures i < next <= |p| && p[i..] == MemberText(x) + p[next..] && MemberOk(x, p[next..])
  {
    hide MarkText, MarkOk, RangeAt, Ranging;
    var m, dash := MarkWritten(p, i);
    RangingRead(p, dash, p[dash..]);
    if RangeAt(p, dash) {
      InRange(p, dash);
      var hi;
      hi, next := MarkWritten(p, dash + 1);
      x := Range(m, hi);
      MarkBefore(m, p[dash..]);
      Regroup(MarkText(m), [DASH], MarkText(hi), p[next..], []);
      assert p[next..] + [] == p[next..] && MemberText(x) + p[next..] + [] == MemberText(x) + p[next..];
      assert p[dash..] == [DASH] + p[dash + 1..];
    } else {
      x, next := One(m), dash;
    }
  }

  /** With something behind it a mark does not depend on what. */
  lemma MarkBefore(m: Mark, rest: CString)
    requires MarkOk(m, rest) && rest != []
    ensures MarkOk(m, [DASH])
  {
  }

  lemma InRange(p: CString, i: nat)
    requires RangeAt(p, i)
    ensures i + 1 < |p| && p[i] == DASH && p[i + 1] != CLOSE
  {
  }

  lemma {:induction false} MembersWritten(p: CString, i: nat) returns (ms: seq<Member>, end: CString)
    requires i <= |p|
    ensures p[i..] == MembersText(ms) + end && MembersOk(ms, end) && (end == [] || end[0] == CLOSE)
    decreases |p| - i
  {
    if i == |p| || p[i] == CLOSE {
      ms, end := [], p[i..];
    } else {
      hide MembersOk, MemberOk, MemberText, MembersText;
      var x, next := MemberWritten(p, i);
      var more;
      more, end := MembersWritten(p, next);
      ms := [x] + more;
      ConsWritten(x, more, end);
    }
  }

  lemma ConsWritten(x: Member, ms: seq<Member>, end: CString)
    requires MembersOk(ms, end) && MemberOk(x, MembersText(ms) + end)
    ensures MembersOk([x] + ms, end) && MembersText([x] + ms) + end == MemberText(x) + (MembersText(ms) + end)
  {
    hide MemberOk, MemberText;
    assert ([x] + ms)[1..] == ms;
    Regroup(MemberText(x), [], [], MembersText(ms), end);
  }

  lemma SetWritten(p: CString, i: nat) returns (x: Piece, rest: CString)
    requires i < |p| && p[i] == OPEN
    ensures p[i..] == PieceText(x) + rest && PieceOk(x, rest)
  {
    hide MembersOk, MembersText;
    var sign := if At(p, i + 1) == BANG then WithBang else if At(p, i + 1) == CARET then WithCaret else Positive;
    var start := i + 1 + |SignText(sign)|;
    var members, end := MembersWritten(p, start);
    assert p[i..] == [OPEN] + (SignText(sign) + p[start..]);
    if end == [] {
      x, rest := OpenSet(sign, members), [];
    } else {
      x, rest := Set(sign, members), end[1..];
      assert end == [CLOSE] + rest;
      assert PieceText(x) + rest == [OPEN] + (SignText(sign) + (MembersText(members) + end));
    }
  }

  /** Every pattern whatsoever is written in pieces, and so its meaning is theirs. */
  lemma {:induction false} EveryPattern(p: CString) returns (xs: seq<Piece>)
    ensures Written(xs) && PatternText(xs) == p && Tokens(p, 0) == Meanings(xs)
    decreases |p|
  {
    if p == [] {
      xs := [];
    } else {
      hide MembersOk, PieceOk, PieceText, Tokens;
      var x, rest := PieceWritten(p);
      var more := EveryPattern(rest);
      xs := [x] + more;
      assert xs[1..] == more;
      assert p[0..] == p;
      WrittenIsRead(p, 0, xs);
    }
  }

  lemma PieceWritten(p: CString) returns (x: Piece, rest: CString)
    requires p != []
    ensures p == PieceText(x) + rest && PieceOk(x, rest)
  {
    hide MembersOk, MembersText;
    assert p[0..] == p;
    if p[0] == OPEN {
      x, rest := SetWritten(p, 0);
    } else if p[0] == Glob.STAR || p[0] == Glob.ANY {
      x, rest := if p[0] == Glob.STAR then AnyRun else AnyChar, p[1..];
    } else {
      var m, next := MarkWritten(p, 0);
      x, rest := Char(m), p[next..];
    }
  }

  /** And every list of closed tokens is the meaning of some pattern. */
  function Spelling(ts: seq<Token>): seq<Piece> {
    if ts == [] then [] else [PieceFor(ts[0])] + Spelling(ts[1..])
  }

  function PieceFor(t: Token): Piece {
    match t
    case Star => AnyRun
    case AnyOne => AnyChar
    case Class(negated, spans) => Set(if negated then WithBang else Positive, Escaped(spans))
    case Lit(c) => Char(Mark(c, true))
    case Unclosed => OpenSet(Positive, [])
  }

  function Escaped(spans: seq<Span>): seq<Member> {
    if spans == [] then [] else [Range(Mark(spans[0].lo, true), Mark(spans[0].hi, true))] + Escaped(spans[1..])
  }

  lemma {:induction false} EscapedSpans(spans: seq<Span>, end: CString)
    ensures Spans(Escaped(spans)) == spans && MembersOk(Escaped(spans), end)
    ensures spans != [] ==> MembersText(Escaped(spans)) != [] && MembersText(Escaped(spans))[0] == ESCAPE
  {
    if spans != [] {
      EscapedSpans(spans[1..], end);
      assert Escaped(spans)[1..] == Escaped(spans[1..]);
    }
  }

  lemma {:induction false} SpellingsAreRead(ts: seq<Token>)
    requires Unclosed !in ts
    ensures Written(Spelling(ts)) && Tokens(PatternText(Spelling(ts)), 0) == ts
  {
    SpellingWritten(ts);
    var p := PatternText(Spelling(ts));
    assert p[0..] == p;
    WrittenIsRead(p, 0, Spelling(ts));
  }

  lemma {:induction false} SpellingWritten(ts: seq<Token>)
    requires Unclosed !in ts
    ensures Written(Spelling(ts)) && Meanings(Spelling(ts)) == ts
  {
    if ts != [] {
      hide MembersOk, MembersText, Escaped, Spans;
      SpellingWritten(ts[1..]);
      var xs := Spelling(ts);
      assert xs[1..] == Spelling(ts[1..]) && xs[0] == PieceFor(ts[0]);
      PieceForWritten(ts[0], PatternText(xs[1..]));
    }
  }

  lemma PieceForWritten(t: Token, rest: CString)
    requires !t.Unclosed?
    ensures PieceOk(PieceFor(t), rest) && Meaning(PieceFor(t)) == t
  {
    hide MembersOk;
    if t.Class? {
      EscapedSpans(t.spans, [CLOSE] + rest);
      if t.spans == [] {
        assert MembersText(Escaped(t.spans)) == [];
      }
    }
  }
}
