/**
 The two greedy "last star" matchers, irc_mask_match and wildcard_match, and the
 declarative glob relation both of them decide.
 */
module Glob {
  import opened Text

  const STAR: CChar := '*' as int
  const ANY: CChar := '?' as int

  /** Which folding a matcher compares literals under. */
  datatype Casing = Rfc1459 | Ascii

  function Fold(c: Casing, b: byte): byte {
    match c
    case Rfc1459 => FoldToBraces(b)
    case Ascii => Lower(b)
  }

  /** One non-star pattern character against one text character. */
  predicate Accepts(c: Casing, p: CChar, t: CChar) {
    p == ANY || Fold(c, p) == Fold(c, t)
  }

  /**
   The meaning of a pattern: a star stands for any run of characters, a question
   mark for exactly one, every other character for its own fold class.
   */
  ghost predicate Matches(c: Casing, p: CString, t: CString)
    decreases |p|
  {
    if p == [] then t == []
    else if p[0] == STAR then exists k :: 0 <= k <= |t| && Matches(c, p[1..], t[k..])
    else t != [] && Accepts(c, p[0], t[0]) && Matches(c, p[1..], t[1..])
  }

  /** Some suffix of t starting at or after `from` matches p. */
  ghost predicate MatchesFrom(c: Casing, p: CString, t: CString, from: nat) {
    exists k :: from <= k <= |t| && Matches(c, p, t[k..])
  }

  /** The star-free segment p[a..b] lines up with t[i..i+b-a]. */
  ghost predicate Aligned(c: Casing, p: CString, a: nat, b: nat, t: CString, i: nat) {
    && a <= b <= |p| && i + (b - a) <= |t|
    && forall n :: a <= n < b ==> p[n] != STAR && Accepts(c, p[n], t[i + (n - a)])
  }

  /** A star at the head moves the question to every later suffix. */
  lemma StarHead(c: Casing, p: CString, t: CString, i: nat, j: nat)
    requires i < |p| && p[i] == STAR && j <= |t|
    ensures Matches(c, p[i..], t[j..]) <==> MatchesFrom(c, p[i + 1..], t, j)
  {
    assert p[i..][1..] == p[i + 1..];
    if Matches(c, p[i..], t[j..]) {
      var k :| 0 <= k <= |t| - j && Matches(c, p[i..][1..], t[j..][k..]);
      assert t[j..][k..] == t[j + k..];
    }
    if MatchesFrom(c, p[i + 1..], t, j) {
      var k :| j <= k <= |t| && Matches(c, p[i + 1..], t[k..]);
      assert t[j..][k - j..] == t[k..];
    }
  }

  /** A star-free segment is consumed character by character, in both directions. */
  lemma {:induction false} SegmentForward(c: Casing, p: CString, a: nat, b: nat, t: CString, i: nat)
    requires a <= b <= |p| && i <= |t|
    requires forall n :: a <= n < b ==> p[n] != STAR
    requires Matches(c, p[a..], t[i..])
    ensures Aligned(c, p, a, b, t, i) && Matches(c, p[b..], t[i + (b - a)..])
    decreases b - a
  {
    if a < b {
      assert p[a..][1..] == p[a + 1..] && t[i..][1..] == t[i + 1..];
      SegmentForward(c, p, a + 1, b, t, i + 1);
    }
  }

  lemma {:induction false} SegmentBackward(c: Casing, p: CString, a: nat, b: nat, t: CString, i: nat)
    requires Aligned(c, p, a, b, t, i)
    requires Matches(c, p[b..], t[i + (b - a)..])
    ensures Matches(c, p[a..], t[i..])
    decreases b - a
  {
    if a < b {
      assert p[a..][1..] == p[a + 1..] && t[i..][1..] == t[i + 1..];
      SegmentBackward(c, p, a + 1, b, t, i + 1);
    }
  }

  lemma LaterStarReached(c: Casing, p: CString, star: nat, pi: nat, t: CString, k: nat)
    requires star <= pi < |p| && p[pi] == STAR && k <= |t|
    requires forall n :: star <= n < pi ==> p[n] != STAR
    requires Matches(c, p[star..], t[k..])
    ensures MatchesFrom(c, p[pi + 1..], t, k + (pi - star))
  {
    SegmentForward(c, p, star, pi, t, k);
    StarHead(c, p, t, pi, k + (pi - star));
  }

  /**
   Committing to the earliest placement of the segment between two stars loses
   nothing: the first star can be forgotten once the second is reached.
   */
  lemma ForgetEarlierStar(c: Casing, p: CString, star: nat, pi: nat, t: CString, retry: nat)
    requires Aligned(c, p, star, pi, t, retry)
    requires pi < |p| && p[pi] == STAR
    ensures MatchesFrom(c, p[star..], t, retry) <==> MatchesFrom(c, p[pi + 1..], t, retry + (pi - star))
  {
    hide MatchesFrom, Matches;
    if MatchesFrom(c, p[star..], t, retry) {
      LaterStarLeft(c, p, star, pi, t, retry);
    }
    if MatchesFrom(c, p[pi + 1..], t, retry + (pi - star)) {
      EarlierStarBack(c, p, star, pi, t, retry);
    }
  }

  lemma LaterStarLeft(c: Casing, p: CString, star: nat, pi: nat, t: CString, retry: nat)
    requires Aligned(c, p, star, pi, t, retry) && pi < |p| && p[pi] == STAR
    requires MatchesFrom(c, p[star..], t, retry)
    ensures MatchesFrom(c, p[pi + 1..], t, retry + (pi - star))
  {
    hide Matches;
    var k :| retry <= k <= |t| && Matches(c, p[star..], t[k..]);
    LaterStarReached(c, p, star, pi, t, k);
  }

  lemma EarlierStarBack(c: Casing, p: CString, star: nat, pi: nat, t: CString, retry: nat)
    requires Aligned(c, p, star, pi, t, retry) && pi < |p| && p[pi] == STAR
    requires MatchesFrom(c, p[pi + 1..], t, retry + (pi - star))
    ensures MatchesFrom(c, p[star..], t, retry)
  {
    hide Matches;
    StarHead(c, p, t, pi, retry + (pi - star));
    SegmentBackward(c, p, star, pi, t, retry);
    assert retry <= retry <= |t|;
  }

  /** A mismatch after the segment rules out the current placement and no other. */
  lemma SkipPlacement(c: Casing, p: CString, star: nat, pi: nat, t: CString, retry: nat)
    requires Aligned(c, p, star, pi, t, retry)
    requires pi < |p| ==> p[pi] != STAR
    requires var ti := retry + (pi - star); ti < |t| && (pi < |p| ==> !Accepts(c, p[pi], t[ti]))
    ensures MatchesFrom(c, p[star..], t, retry) <==> MatchesFrom(c, p[star..], t, retry + 1)
  {
    if Matches(c, p[star..], t[retry..]) {
      SegmentForward(c, p, star, pi, t, retry);
      assert false;
    }
  }

  /** Trailing stars match the empty text, anything else does not. */
  lemma {:induction false} MatchesEmpty(c: Casing, p: CString, i: nat)
    requires i <= |p|
    ensures Matches(c, p[i..], []) <==> forall n :: i <= n < |p| ==> p[n] == STAR
    decreases |p| - i
  {
    if i < |p| {
      assert p[i..][1..] == p[i + 1..];
      MatchesEmpty(c, p, i + 1);
      if p[i] == STAR {
        var t: CString := [];
        assert t[0..] == t;
        StarHead(c, p, t, i, 0);
      }
    }
  }

  /**
   What the scanning loop knows. Before the first star the two cursors advance
   together from the start; afterwards the answer is whether the pattern behind
   the last star fits some suffix at or after the retry point.
   */
  ghost predicate Scanning(c: Casing, p: CString, t: CString, seen: bool, star: nat, retry: nat, pi: nat, ti: nat) {
    && pi <= |p| && ti <= |t|
    && (!seen ==> Aligned(c, p, 0, pi, t, 0) && ti == pi)
    && (seen ==> Aligned(c, p, star, pi, t, retry) && ti == retry + (pi - star)
                 && (Matches(c, p, t) <==> MatchesFrom(c, p[star..], t, retry)))
  }

  lemma ScanStar(c: Casing, p: CString, t: CString, seen: bool, star: nat, retry: nat, pi: nat, ti: nat)
    requires Scanning(c, p, t, seen, star, retry, pi, ti)
    requires pi < |p| && p[pi] == STAR
    ensures Scanning(c, p, t, true, pi + 1, ti, pi + 1, ti)
  {
    if seen {
      ForgetEarlierStar(c, p, star, pi, t, retry);
    } else {
      assert p[0..] == p && t[0..] == t;
      if Matches(c, p, t) {
        SegmentForward(c, p, 0, pi, t, 0);
        StarHead(c, p, t, pi, ti);
      }
      if MatchesFrom(c, p[pi + 1..], t, ti) {
        StarHead(c, p, t, pi, ti);
        SegmentBackward(c, p, 0, pi, t, 0);
      }
    }
  }

  lemma ScanAdvance(c: Casing, p: CString, t: CString, seen: bool, star: nat, retry: nat, pi: nat, ti: nat)
    requires Scanning(c, p, t, seen, star, retry, pi, ti)
    requires pi < |p| && ti < |t| && p[pi] != STAR && Accepts(c, p[pi], t[ti])
    ensures Scanning(c, p, t, seen, star, retry, pi + 1, ti + 1)
  {
  }

  lemma ScanRetry(c: Casing, p: CString, t: CString, star: nat, retry: nat, pi: nat, ti: nat)
    requires Scanning(c, p, t, true, star, retry, pi, ti)
    requires ti < |t|
    requires pi < |p| ==> p[pi] != STAR && !Accepts(c, p[pi], t[ti])
    ensures Scanning(c, p, t, true, star, retry + 1, star, retry + 1)
  {
    SkipPlacement(c, p, star, pi, t, retry);
  }

  lemma ScanReject(c: Casing, p: CString, t: CString, star: nat, retry: nat, pi: nat, ti: nat)
    requires Scanning(c, p, t, false, star, retry, pi, ti)
    requires ti < |t|
    requires pi < |p| ==> p[pi] != STAR && !Accepts(c, p[pi], t[ti])
    ensures !Matches(c, p, t)
  {
    if Matches(c, p, t) {
      assert p[0..] == p && t[0..] == t;
      SegmentForward(c, p, 0, pi, t, 0);
      assert false;
    }
  }

  /** At the end of the text only stars may be left of the pattern. */
  lemma ScanEnd(c: Casing, p: CString, t: CString, seen: bool, star: nat, retry: nat, pi: nat, ti: nat)
    requires Scanning(c, p, t, seen, star, retry, pi, ti)
    requires ti == |t|
    ensures Matches(c, p, t) <==> forall n :: pi <= n < |p| ==> p[n] == STAR
  {
    assert t[ti..] == [];
    MatchesEmpty(c, p, pi);
    if seen {
      if Matches(c, p, t) {
        var k :| retry <= k <= |t| && Matches(c, p[star..], t[k..]);
        SegmentForward(c, p, star, pi, t, k);
      }
      if Matches(c, p[pi..], []) {
        SegmentBackward(c, p, star, pi, t, retry);
      }
    } else {
      assert p[0..] == p && t[0..] == t;
      if Matches(c, p, t) {
        SegmentForward(c, p, 0, pi, t, 0);
      }
      if Matches(c, p[pi..], []) {
        SegmentBackward(c, p, 0, pi, t, 0);
      }
    }
  }

  /** The closing loop of both matchers: skip stars, then ask for the terminator. */
  method OnlyStarsLeft(p: CString, from: nat) returns (r: bool)
    requires from <= |p|
    ensures r <==> forall n :: from <= n < |p| ==> p[n] == STAR
  {
    var pi := from;
    while At(p, pi) == STAR
      invariant from <= pi <= |p|
      invariant forall n :: from <= n < pi ==> p[n] == STAR
      decreases |p| - pi
    {
      pi := pi + 1;
    }
    r := At(p, pi) == 0;
  }

  /** irc_mask_match: the star cursor already points past the star. */
  method IrcMaskMatch(pattern: CString, text: CString) returns (r: bool)
    ensures r <==> Matches(Rfc1459, pattern, text)
  {
    var star, retry, seen := 0, 0, false;
    var pi, ti := 0, 0;
    while ti < |text|
      invariant Scanning(Rfc1459, pattern, text, seen, star, retry, pi, ti)
      decreases if seen then |text| - retry else |text| + 1, |pattern| - pi
    {
      if At(pattern, pi) == STAR {
        ScanStar(Rfc1459, pattern, text, seen, star, retry, pi, ti);
        pi := pi + 1;
        star, retry, seen := pi, ti, true;
      } else if At(pattern, pi) == ANY || FoldToBraces(At(pattern, pi)) == FoldToBraces(text[ti]) {
        ScanAdvance(Rfc1459, pattern, text, seen, star, retry, pi, ti);
        pi, ti := pi + 1, ti + 1;
      } else if seen {
        ScanRetry(Rfc1459, pattern, text, star, retry, pi, ti);
        retry := retry + 1;
        pi, ti := star, retry;
      } else {
        ScanReject(Rfc1459, pattern, text, star, retry, pi, ti);
        return false;
      }
    }
    ScanEnd(Rfc1459, pattern, text, seen, star, retry, pi, ti);
    r := OnlyStarsLeft(pattern, pi);
  }

  /** wildcard_match: the star cursor stays on the star and a retry starts behind it. */
  method WildcardMatch(pattern: CString, text: CString) returns (r: bool)
    ensures r <==> Matches(Ascii, pattern, text)
  {
    var star, retry, seen := 0, 0, false;
    var pi, ti := 0, 0;
    ghost var behind := 0;
    while ti < |text|
      invariant seen ==> behind == star + 1
      invariant Scanning(Ascii, pattern, text, seen, behind, retry, pi, ti)
      decreases if seen then |text| - retry else |text| + 1, |pattern| - pi
    {
      if At(pattern, pi) == STAR {
        ScanStar(Ascii, pattern, text, seen, behind, retry, pi, ti);
        star, retry, seen := pi, ti, true;
        pi := pi + 1;
        behind := pi;
      } else if At(pattern, pi) == ANY || Lower(At(pattern, pi)) == Lower(text[ti]) {
        ScanAdvance(Ascii, pattern, text, seen, behind, retry, pi, ti);
        pi, ti := pi + 1, ti + 1;
      } else if seen {
        ScanRetry(Ascii, pattern, text, behind, retry, pi, ti);
        retry := retry + 1;
        pi, ti := star + 1, retry;
      } else {
        ScanReject(Ascii, pattern, text, behind, retry, pi, ti);
        return false;
      }
    }
    ScanEnd(Ascii, pattern, text, seen, behind, retry, pi, ti);
    r := OnlyStarsLeft(pattern, pi);
  }
}
