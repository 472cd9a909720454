/**
 SASL PLAIN of commands/authenticate.c: base64 frames of at most 400 bytes are
 collected, decoded (RFC 4648 section 4) and split into the three fields of
 RFC 4616 section 2.
 */
module Base64 {
  import opened Text

  const PAD: CChar := '=' as int

  /** The letter for a six-bit value. */
  function Letter(v: nat): (c: CChar)
    requires v < 64
    ensures c != PAD
  {
    if v < 26 then 'A' as int + v
    else if v < 52 then 'a' as int + (v - 26)
    else if v < 62 then '0' as int + (v - 52)
    else if v == 62 then '+' as int
    else '/' as int
  }

  predicate InAlphabet(c: CChar) {
    || 'A' as int <= c <= 'Z' as int || 'a' as int <= c <= 'z' as int || '0' as int <= c <= '9' as int
    || c == '+' as int || c == '/' as int
  }

  /** The value of a letter; padding counts as zero bits. */
  function Value(c: CChar): (v: nat)
    requires InAlphabet(c) || c == PAD
    ensures v < 64
  {
    if 'A' as int <= c <= 'Z' as int then c - 'A' as int
    else if 'a' as int <= c <= 'z' as int then c - 'a' as int + 26
    else if '0' as int <= c <= '9' as int then c - '0' as int + 52
    else if c == '+' as int then 62
    else if c == '/' as int then 63
    else 0
  }

  lemma LetterValue(v: nat)
    requires v < 64
    ensures InAlphabet(Letter(v)) && Value(Letter(v)) == v
  {
  }

  function EncodeGroup(a: byte, b: byte, c: byte): (q: CString)
    ensures |q| == 4
  {
    [Letter(a / 4), Letter(a % 4 * 16 + b / 16), Letter(b % 16 * 4 + c / 64), Letter(c % 64)]
  }

  /** Standard encoding with padding. */
  function Encode(m: seq<byte>): CString {
    if m == [] then []
    else if |m| == 1 then EncodeGroup(m[0], 0, 0)[..2] + [PAD, PAD]
    else if |m| == 2 then EncodeGroup(m[0], m[1], 0)[..3] + [PAD]
    else EncodeGroup(m[0], m[1], m[2]) + Encode(m[3..])
  }

  function DecodeQuad(q: CString): (r: Option<seq<byte>>)
    requires |q| == 4
    ensures r.Some? ==> |r.value| == 3
  {
    if forall i :: 0 <= i < 4 ==> InAlphabet(q[i]) || q[i] == PAD then
      var (v0, v1, v2, v3) := (Value(q[0]), Value(q[1]), Value(q[2]), Value(q[3]));
      Some([v0 * 4 + v1 / 16, v1 % 16 * 16 + v2 / 4, v2 % 4 * 64 + v3])
    else None
  }

  /** EVP_DecodeBlock: three bytes for every four letters, padding read as zeroes. */
  function DecodeBlock(s: CString): (r: Option<seq<byte>>)
    ensures r.Some? ==> |s| % 4 == 0 && |r.value| == |s| / 4 * 3
  {
    if s == [] then Some([])
    else if |s| < 4 then None
    else
      var head, rest := DecodeQuad(s[..4]), DecodeBlock(s[4..]);
      if head.Some? && rest.Some? then Some(head.value + rest.value) else None
  }

  /** How many padding letters end the text. */
  function Padding(s: CString): (n: nat)
    ensures n <= |s|
  {
    if s == [] || s[|s| - 1] != PAD then 0 else 1 + Padding(s[..|s| - 1])
  }

  /** Letters decode to the bytes their values spell. */
  lemma LettersDecode(q: CString, v0: nat, v1: nat, v2: nat, v3: nat)
    requires v0 < 64 && v1 < 64 && v2 < 64 && v3 < 64 && |q| == 4
    requires forall i :: 0 <= i < 4 ==> InAlphabet(q[i]) || q[i] == PAD
    requires Value(q[0]) == v0 && Value(q[1]) == v1 && Value(q[2]) == v2 && Value(q[3]) == v3
    ensures DecodeQuad(q) == Some([v0 * 4 + v1 / 16, v1 % 16 * 16 + v2 / 4, v2 % 4 * 64 + v3])
  {
    hide InAlphabet, Value;
  }

  const UPPER: string := "ABCDEFGHIJKLMNOPQRSTUVWXYZ"
  const LOWER: string := "abcdefghijklmnopqrstuvwxyz"
  const DIGITS: string := "0123456789+/"

  /** The alphabet of RFC 4648, section 4, in its order: the capitals, the small letters, the digits and the signs. */
  lemma CapitalsInOrder(v: nat)
    requires v < 26
    ensures |UPPER| == 26 && Letter(v) == UPPER[v] as int
  {
  }

  lemma SmallInOrder(v: nat)
    requires v < 26
    ensures |LOWER| == 26 && Letter(26 + v) == LOWER[v] as int
  {
  }

  lemma DigitsInOrder(v: nat)
    requires v < 12
    ensures |DIGITS| == 12 && Letter(52 + v) == DIGITS[v] as int
  {
  }

  /** A group of four letters spells the three bytes as one number, most significant bits first. */
  lemma GroupIsNumber(a: byte, b: byte, c: byte)
    ensures var q := EncodeGroup(a, b, c);
            && (forall i :: 0 <= i < 4 ==> InAlphabet(q[i]))
            && ((Value(q[0]) * 64 + Value(q[1])) * 64 + Value(q[2])) * 64 + Value(q[3]) == (a * 256 + b) * 256 + c
  {
    hide Letter, Value, InAlphabet;
    LetterValue(a / 4);
    LetterValue(a % 4 * 16 + b / 16);
    LetterValue(b % 16 * 4 + c / 64);
    LetterValue(c % 64);
  }

  /** The six-bit values of three bytes put together again. */
  lemma SixBits(a: byte, b: byte, c: byte)
    ensures a / 4 * 4 + (a % 4 * 16 + b / 16) / 16 == a
    ensures (a % 4 * 16 + b / 16) % 16 * 16 + (b % 16 * 4 + c / 64) / 4 == b
    ensures (b % 16 * 4 + c / 64) % 4 * 64 + c % 64 == c
  {
  }

  lemma GroupDecodes(a: byte, b: byte, c: byte)
    ensures DecodeQuad(EncodeGroup(a, b, c)) == Some([a, b, c])
    ensures PAD !in EncodeGroup(a, b, c)
  {
    hide Letter, Value, InAlphabet, DecodeQuad;
    LetterValue(a / 4);
    LetterValue(a % 4 * 16 + b / 16);
    LetterValue(b % 16 * 4 + c / 64);
    LetterValue(c % 64);
    LettersDecode(EncodeGroup(a, b, c), a / 4, a % 4 * 16 + b / 16, b % 16 * 4 + c / 64, c % 64);
    SixBits(a, b, c);
  }

  /** The last group of a message whose length is 1 or 2 modulo 3. */
  lemma TailDecodes(a: byte, b: byte)
    ensures DecodeQuad(EncodeGroup(a, 0, 0)[..2] + [PAD, PAD]) == Some([a, 0, 0])
    ensures DecodeQuad(EncodeGroup(a, b, 0)[..3] + [PAD]) == Some([a, b, 0])
  {
    hide Letter, InAlphabet, DecodeQuad;
    LetterValue(a / 4);
    LetterValue(a % 4 * 16 + 0 / 16);
    LetterValue(a % 4 * 16 + b / 16);
    LetterValue(b % 16 * 4 + 0 / 64);
    LettersDecode(EncodeGroup(a, 0, 0)[..2] + [PAD, PAD], a / 4, a % 4 * 16 + 0 / 16, 0, 0);
    LettersDecode(EncodeGroup(a, b, 0)[..3] + [PAD], a / 4, a % 4 * 16 + b / 16, b % 16 * 4 + 0 / 64, 0);
    SixBits(a, 0, 0);
    SixBits(a, b, 0);
  }

  /** Bytes missing in the last group, which is the number of padding letters. */
  function Missing(m: seq<byte>): nat { (3 - |m| % 3) % 3 }

  function Zeros(n: nat): seq<byte> { seq(n, _ => 0) }

  lemma {:induction false} EncodeLength(m: seq<byte>)
    ensures |Encode(m)| % 4 == 0 && |Encode(m)| == (|m| + 2) / 3 * 4
  {
    hide Letter;
    if |m| >= 3 {
      EncodeLength(m[3..]);
    }
  }

  lemma DecodeOne(q: CString, bytes: seq<byte>)
    requires |q| == 4 && DecodeQuad(q) == Some(bytes)
    ensures DecodeBlock(q) == Some(bytes)
  {
    hide DecodeQuad;
    assert q[..4] == q && q[4..] == [];
    assert bytes + [] == bytes;
  }

  lemma DecodeMore(q: CString, rest: CString, head: seq<byte>, tail: seq<byte>)
    requires |q| == 4 && DecodeQuad(q) == Some(head) && DecodeBlock(rest) == Some(tail)
    ensures DecodeBlock(q + rest) == Some(head + tail)
  {
    hide DecodeQuad;
    assert (q + rest)[..4] == q && (q + rest)[4..] == rest;
  }

  /** Decoding the encoded bytes gives them back, followed by a zero per padding letter. */
  lemma {:induction false} EncodeDecode(m: seq<byte>)
    ensures DecodeBlock(Encode(m)) == Some(m + Zeros(Missing(m)))
  {
    hide EncodeGroup, DecodeQuad, DecodeBlock;
    if m == [] {
      assert DecodeBlock([]) == Some([]) by { EmptyDecodes(); }
      assert m + Zeros(Missing(m)) == [];
    } else if |m| == 1 {
      TailDecodes(m[0], 0);
      DecodeOne(Encode(m), [m[0], 0, 0]);
      assert [m[0], 0, 0] == m + Zeros(Missing(m));
    } else if |m| == 2 {
      TailDecodes(m[0], m[1]);
      DecodeOne(Encode(m), [m[0], m[1], 0]);
      assert [m[0], m[1], 0] == m + Zeros(Missing(m));
    } else {
      GroupDecodes(m[0], m[1], m[2]);
      EncodeDecode(m[3..]);
      DecodeMore(EncodeGroup(m[0], m[1], m[2]), Encode(m[3..]), [m[0], m[1], m[2]], m[3..] + Zeros(Missing(m[3..])));
      assert [m[0], m[1], m[2]] + (m[3..] + Zeros(Missing(m[3..]))) == m + Zeros(Missing(m));
    }
  }

  lemma EmptyDecodes()
    ensures DecodeBlock([]) == Some([])
  {
  }

  /** The text ends in exactly n padding letters and has none before. */
  ghost predicate PaddedBy(s: CString, n: nat) {
    Padding(s) == n && n <= |s| && PAD !in s[..|s| - n]
  }

  /** Padding letters stand at the end only, and there are as many as bytes are missing. */
  lemma {:induction false} EncodePadding(m: seq<byte>)
    ensures PaddedBy(Encode(m), Missing(m))
  {
    hide EncodeGroup, PaddedBy;
    if m == [] {
      PaddedEmpty();
    } else if |m| == 1 {
      GroupDecodes(m[0], 0, 0);
      PaddedTail(EncodeGroup(m[0], 0, 0)[..2]);
    } else if |m| == 2 {
      GroupDecodes(m[0], m[1], 0);
      PaddedTail(EncodeGroup(m[0], m[1], 0)[..3]);
    } else {
      GroupDecodes(m[0], m[1], m[2]);
      EncodePadding(m[3..]);
      PaddedMore(EncodeGroup(m[0], m[1], m[2]), Encode(m[3..]), Missing(m));
    }
  }

  lemma ValueLetter(c: CChar)
    requires InAlphabet(c)
    ensures Letter(Value(c)) == c
  {
  }

  /** Four six-bit values are those of the three bytes they make. */
  lemma SixBitsBack(v0: nat, v1: nat, v2: nat, v3: nat)
    requires v0 < 64 && v1 < 64 && v2 < 64 && v3 < 64
    ensures var (a, b, c) := (v0 * 4 + v1 / 16, v1 % 16 * 16 + v2 / 4, v2 % 4 * 64 + v3);
            && a < 256 && b < 256 && c < 256
            && a / 4 == v0 && a % 4 * 16 + b / 16 == v1 && b % 16 * 4 + c / 64 == v2 && c % 64 == v3
  {
  }

  /** Letters that decode to three bytes are the letters of these bytes. */
  lemma QuadSpelling(q: CString)
    requires |q| == 4 && forall i :: 0 <= i < 4 ==> InAlphabet(q[i])
    ensures DecodeQuad(q).Some?
    ensures var d := DecodeQuad(q).value; EncodeGroup(d[0], d[1], d[2]) == q
  {
    hide InAlphabet, Letter, Value, DecodeQuad;
    LettersDecode(q, Value(q[0]), Value(q[1]), Value(q[2]), Value(q[3]));
    SixBitsBack(Value(q[0]), Value(q[1]), Value(q[2]), Value(q[3]));
    ValueLetter(q[0]);
    ValueLetter(q[1]);
    ValueLetter(q[2]);
    ValueLetter(q[3]);
  }

  lemma PadIsZero()
    ensures Value(PAD) == 0 && !InAlphabet(PAD)
  {
  }

  /** The letters before the last one of a padded group are those of its bytes. */
  lemma TailSpelling(q: CString, n: nat)
    requires |q| == 4 && 0 < n <= 2
    requires (forall i :: 0 <= i < 4 - n ==> InAlphabet(q[i])) && forall i :: 4 - n <= i < 4 ==> q[i] == PAD
    ensures DecodeQuad(q).Some?
    ensures var d := DecodeQuad(q).value;
            q[..3 - n] == EncodeGroup(d[0], if n == 1 then d[1] else 0, 0)[..3 - n]
  {
    hide InAlphabet, Letter, Value, DecodeQuad;
    PadIsZero();
    LettersDecode(q, Value(q[0]), Value(q[1]), Value(q[2]), Value(q[3]));
    SixBitsBack(Value(q[0]), Value(q[1]), Value(q[2]), Value(q[3]));
    ValueLetter(q[0]);
    ValueLetter(q[1]);
  }

  /** The text is that of the bytes, the spare bits of the last letter before the padding aside. */
  ghost predicate Spells(s: CString, m: seq<byte>, n: nat) {
    |s| == |Encode(m)| && forall i :: 0 <= i < |s| && (n == 0 || i != |s| - n - 1) ==> s[i] == Encode(m)[i]
  }

  /** A text in the alphabet, but for n padding letters at its end. */
  ghost predicate Lettered(s: CString, n: nat) {
    && n <= 2 && |s| % 4 == 0 && (n > 0 ==> s != [])
    && (forall i :: 0 <= i < |s| - n ==> InAlphabet(s[i])) && forall i :: 0 <= i < |s| && |s| - n <= i ==> s[i] == PAD
  }

  /** What a text decodes to spells it. */
  ghost predicate Sound(s: CString, n: nat) {
    var d := DecodeBlock(s);
    d.Some? && n <= |d.value| && Spells(s, d.value[..|d.value| - n], n)
  }

  lemma WholeSpelling(s: CString)
    requires |s| == 4 && Lettered(s, 0)
    ensures Sound(s, 0)
  {
    hide InAlphabet, DecodeQuad, EncodeGroup, DecodeBlock;
    QuadSpelling(s);
    var d := DecodeQuad(s).value;
    DecodeOne(s, d);
    assert d[..3] == d && d[3..] == [] && Encode(d) == s + [];
  }

  lemma LastSpelling(s: CString, n: nat)
    requires |s| == 4 && n > 0 && Lettered(s, n)
    ensures Sound(s, n)
  {
    hide InAlphabet, DecodeQuad, EncodeGroup, DecodeBlock;
    TailSpelling(s, n);
    var d := DecodeQuad(s).value;
    DecodeOne(s, d);
    var m := d[..3 - n];
    if n == 1 {
      assert s[..2] == EncodeGroup(d[0], d[1], 0)[..2] == Encode(m)[..2];
    } else {
      assert s[..1] == EncodeGroup(d[0], 0, 0)[..1] == Encode(m)[..1];
    }
  }

  lemma LetteredMore(s: CString, n: nat)
    requires |s| > 4 && Lettered(s, n)
    ensures Lettered(s[4..], n) && n < |s[4..]| && forall i :: 0 <= i < 4 ==> InAlphabet(s[..4][i])
  {
    hide InAlphabet;
  }

  lemma SpellsMore(h: seq<byte>, rest: CString, m: seq<byte>, n: nat)
    requires |h| == 3 && Spells(rest, m, n) && n < |rest|
    ensures Spells(EncodeGroup(h[0], h[1], h[2]) + rest, h + m, n)
  {
    hide EncodeGroup;
    assert (h + m)[3..] == m;
    assert Encode(h + m) == EncodeGroup(h[0], h[1], h[2]) + Encode(m);
  }

  lemma SoundMore(head: CString, rest: CString, n: nat)
    requires |head| == 4 && (forall i :: 0 <= i < 4 ==> InAlphabet(head[i])) && n < |rest| && Sound(rest, n)
    ensures Sound(head + rest, n)
  {
    hide Spells, DecodeBlock, DecodeQuad, EncodeGroup, InAlphabet;
    QuadSpelling(head);
    var h, d := DecodeQuad(head).value, DecodeBlock(rest).value;
    DecodeMore(head, rest, h, d);
    SpellsMore(h, rest, d[..|d| - n], n);
    assert (h + d)[..3 + |d| - n] == h + d[..|d| - n];
  }

  /** Every such text decodes, and is the encoding of what it decodes to. */
  lemma {:induction false} DecodedSpelling(s: CString, n: nat)
    requires Lettered(s, n)
    ensures Sound(s, n)
    decreases |s|
  {
    if s == [] {
      assert DecodeBlock(s) == Some([]);
    } else {
      hide Sound, Lettered, InAlphabet;
      LetteredLength(s, n);
      if |s| > 4 {
        LetteredMore(s, n);
        DecodedSpelling(s[4..], n);
        SoundMore(s[..4], s[4..], n);
        assert s == s[..4] + s[4..];
      } else if n == 0 {
        WholeSpelling(s);
      } else {
        LastSpelling(s, n);
      }
    }
  }

  lemma LetteredLength(s: CString, n: nat)
    requires Lettered(s, n)
    ensures s == [] || |s| >= 4
    ensures n <= 2 && (s == [] ==> n == 0)
  {
  }

  lemma PaddedEmpty()
    ensures PaddedBy([], 0)
  {
  }

  lemma PaddedMore(head: CString, rest: CString, n: nat)
    requires head != [] && PAD !in head && PaddedBy(rest, n)
    ensures PaddedBy(head + rest, n)
  {
    PaddingAppend(head, rest);
    assert (head + rest)[..|head| + |rest| - n] == head + rest[..|rest| - n];
  }

  lemma PaddedTail(t: CString)
    requires t != [] && PAD !in t
    ensures PaddedBy(t + [PAD], 1) && PaddedBy(t + [PAD, PAD], 2)
  {
    var one: CString := [PAD];
    var two: CString := [PAD, PAD];
    assert one[..0] == [] && two[..1] == one && two[..0] == [];
    assert Padding(one) == 1 && Padding(two) == 2;
    PaddedMore(t, one, 1);
    PaddedMore(t, two, 2);
  }

  lemma {:induction false} PaddingAppend(head: CString, rest: CString)
    requires head != [] && PAD !in head
    ensures Padding(head + rest) == Padding(rest)
    decreases |rest|
  {
    var s := head + rest;
    if rest == [] {
      assert s == head && head[|head| - 1] in head;
    } else {
      assert s[..|s| - 1] == head + rest[..|rest| - 1];
      PaddingAppend(head, rest[..|rest| - 1]);
    }
  }
}

module Sasl {
  import opened Text
  import opened Base64

  const FRAME_MAX: nat := 400
  const ENCODED_MAX: nat := 800
  const DECODED_MAX: nat := 600
  const SPACE: CChar := ' ' as int
  const FINAL: CString := ['+' as int]
  const ABORT: CString := ['*' as int]
  /** "PLAIN" */
  const MECHANISM: CString := ['P' as int, 'L' as int, 'A' as int, 'I' as int, 'N' as int]

  // ---------------------------------------------------------------- fields

  datatype Fields = Fields(authzid: CString, authcid: CString, password: CString)

  predicate Complete(f: Fields) { f.authcid != [] && f.password != [] }

  /** The PLAIN message: three fields separated by zero bytes. */
  function Message(f: Fields): seq<byte> {
    var zero: seq<byte> := [0];
    f.authzid + zero + f.authcid + zero + f.password
  }

  /** Offset of the first zero byte at or after i, or the length. */
  function ZeroAt(s: seq<byte>, i: nat): (j: nat)
    requires i <= |s|
    ensures i <= j <= |s|
    ensures forall n :: i <= n < j ==> s[n] != 0
    ensures j < |s| ==> s[j] == 0
    decreases |s| - i
  {
    if i < |s| && s[i] != 0 then ZeroAt(s, i + 1) else i
  }

  lemma ZeroAtUnique(s: seq<byte>, i: nat, j: nat)
    requires i <= j < |s| && s[j] == 0 && forall n :: i <= n < j ==> s[n] != 0
    ensures ZeroAt(s, i) == j
  {
  }

  /** memchr for a zero byte. */
  method MemchrZero(s: seq<byte>, i: nat) returns (j: nat)
    requires i <= |s|
    ensures j == ZeroAt(s, i)
  {
    j := i;
    while j < |s| && s[j] != 0
      invariant i <= j <= |s| && ZeroAt(s, i) == ZeroAt(s, j)
    {
      j := j + 1;
    }
  }

  function ParseFields(d: seq<byte>): (r: Option<Fields>)
    ensures r.Some? ==> Complete(r.value) && d == Message(r.value)
  {
    var first := ZeroAt(d, 0);
    if first == |d| then None
    else
      var second := ZeroAt(d, first + 1);
      if second == |d| || second == first + 1 || second + 1 == |d| then None
      else if ZeroAt(d, second + 1) < |d| then None
      else
        var f := Fields(d[..first], d[first + 1..second], d[second + 1..]);
        assert d == d[..first] + [0] + d[first + 1..second] + [0] + d[second + 1..];
        Some(f)
  }

  /** plain_fields accepts exactly the messages of the PLAIN shape, and recovers their fields. */
  lemma ParseFieldsComplete(f: Fields)
    requires Complete(f)
    ensures ParseFields(Message(f)) == Some(f)
  {
    hide Message;
    var d := Message(f);
    var first := |f.authzid|;
    var second := first + 1 + |f.authcid|;
    MessageLayout(f);
    FieldHasNoZero(d, 0, f.authzid);
    FieldHasNoZero(d, first + 1, f.authcid);
    FieldHasNoZero(d, second + 1, f.password);
    ZeroAtUnique(d, 0, first);
    ZeroAtUnique(d, first + 1, second);
  }

  lemma FieldHasNoZero(d: seq<byte>, from: nat, field: CString)
    requires from + |field| <= |d| && d[from..from + |field|] == field
    ensures forall n :: from <= n < from + |field| ==> d[n] != 0
  {
    forall n | from <= n < from + |field| ensures d[n] != 0 {
      assert d[n] == d[from..from + |field|][n - from] == field[n - from];
    }
  }

  /** Where the three fields of a message lie. */
  lemma MessageLayout(f: Fields)
    ensures var d, first := Message(f), |f.authzid|;
            var second := first + 1 + |f.authcid|;
            && |d| == second + 1 + |f.password|
            && d[..first] == f.authzid && d[first] == 0
            && d[first + 1..second] == f.authcid && d[second] == 0 && d[second + 1..] == f.password
  {
    var rest := Joined(f.authcid, f.password);
    JoinedLayout(f.authzid, rest);
    JoinedLayout(f.authcid, f.password);
    var d, first := Message(f), |f.authzid|;
    var second := first + 1 + |f.authcid|;
    assert d == Joined(f.authzid, rest);
    assert d[first + 1..second] == d[first + 1..][..|f.authcid|];
    assert d[second] == d[first + 1..][|f.authcid|];
    assert d[second + 1..] == d[first + 1..][|f.authcid| + 1..];
  }

  function Joined(a: seq<byte>, b: seq<byte>): seq<byte> { a + [0] + b }

  lemma JoinedLayout(a: seq<byte>, b: seq<byte>)
    ensures var d := Joined(a, b);
            |d| == |a| + 1 + |b| && d[..|a|] == a && d[|a|] == 0 && d[|a| + 1..] == b
  {
  }

  method PlainFields(decoded: seq<byte>) returns (r: Option<Fields>)
    ensures r == ParseFields(decoded)
  {
    if |decoded| == 0 {
      return None;
    }
    var first := MemchrZero(decoded, 0);
    if first == |decoded| {
      return None;
    }
    var second := MemchrZero(decoded, first + 1);
    if second == |decoded| || second == first + 1 || second + 1 == |decoded| {
      return None;
    }
    var third := MemchrZero(decoded, second + 1);
    if third < |decoded| {
      return None;
    }
    r := Some(Fields(decoded[..first], decoded[first + 1..second], decoded[second + 1..]));
  }

  // ---------------------------------------------------------------- payload

  /** What sasl_finish_plain makes of a collected payload. */
  function Credentials(payload: CString): (r: Option<Fields>) {
    if payload == [] || |payload| % 4 != 0 then None
    else
      var padding := Padding(payload);
      if padding > 2 || PAD in payload[..|payload| - padding] then None
      else
        var decoded := DecodeBlock(payload);
        if decoded.None? || |decoded.value| < padding || |decoded.value| - padding > DECODED_MAX then None
        else ParseFields(decoded.value[..|decoded.value| - padding])
  }

  /** The encoded form of any message of the PLAIN shape within the size limit is understood. */
  lemma CredentialsRecovered(f: Fields)
    requires Complete(f) && |Encode(Message(f))| <= ENCODED_MAX
    ensures Credentials(Encode(Message(f))) == Some(f)
  {
    var m := Message(f);
    EncodeLength(m);
    EncodePadding(m);
    EncodeDecode(m);
    ParseFieldsComplete(f);
    assert (m + Zeros(Missing(m)))[..|m|] == m;
  }

  /**
   Nothing but the encoded form of a PLAIN message is understood: whole groups, letters
   of the alphabet with at most two padding letters behind them, and the message they
   spell; only the spare bits of the last letter before the padding are not looked at.
   */
  lemma CredentialsSpelled(payload: CString)
    ensures Credentials(payload).Some? ==>
              var f, n := Credentials(payload).value, Padding(payload);
              Complete(f) && |Message(f)| <= 600 && Lettered(payload, n) && Spells(payload, Message(f), n)
  {
    if Credentials(payload).Some? {
      hide Spells, ParseFields, Message, InAlphabet;
      var n := Padding(payload);
      PaddingIsPadding(payload);
      AllLetters(payload);
      assert forall i :: 0 <= i < |payload| - n ==> payload[..|payload| - n][i] == payload[i];
      DecodedSpelling(payload, n);
    }
  }

  lemma {:induction false} PaddingIsPadding(s: CString)
    ensures forall i :: |s| - Padding(s) <= i < |s| ==> s[i] == PAD
  {
    if s != [] && s[|s| - 1] == PAD {
      PaddingIsPadding(s[..|s| - 1]);
    }
  }

  lemma {:induction false} AllLetters(s: CString)
    requires DecodeBlock(s).Some?
    ensures forall i :: 0 <= i < |s| ==> InAlphabet(s[i]) || s[i] == PAD
  {
    if s != [] {
      hide InAlphabet, Value;
      AllLetters(s[4..]);
      forall i | 0 <= i < |s| ensures InAlphabet(s[i]) || s[i] == PAD {
        if i < 4 {
          assert s[..4][i] == s[i];
        } else {
          assert s[4..][i - 4] == s[i];
        }
      }
    }
  }

  predicate EqualFold(a: CString, b: CString) {
    |a| == |b| && forall i :: 0 <= i < |a| ==> Lower(a[i]) == Lower(b[i])
  }

  /** Texts are equal but for case exactly when they have one length and every letter is the same or its other case. */
  lemma EqualFoldExact(a: CString, b: CString)
    ensures EqualFold(a, b) <==>
              |a| == |b| && forall i :: 0 <= i < |a| ==>
                  || a[i] == b[i]
                  || ('A' as int <= a[i] <= 'Z' as int && b[i] == a[i] + 32)
                  || ('A' as int <= b[i] <= 'Z' as int && a[i] == b[i] + 32)
  {
    if |a| == |b| {
      forall i | 0 <= i < |a|
        ensures Lower(a[i]) == Lower(b[i]) <==>
                  || a[i] == b[i]
                  || ('A' as int <= a[i] <= 'Z' as int && b[i] == a[i] + 32)
                  || ('A' as int <= b[i] <= 'Z' as int && a[i] == b[i] + 32)
      {
      }
    }
  }

  method CountPadding(payload: CString) returns (padding: nat)
    ensures padding == Padding(payload)
  {
    padding := 0;
    assert payload[..|payload|] == payload;
    while padding < |payload| && payload[|payload| - padding - 1] == PAD
      invariant padding <= |payload|
      invariant Padding(payload) == padding + Padding(payload[..|payload| - padding])
    {
      assert payload[..|payload| - padding][..|payload| - padding - 1] == payload[..|payload| - padding - 1];
      padding := padding + 1;
    }
  }

  method DecodePayload(payload: CString) returns (r: Option<Fields>)
    ensures r == Credentials(payload)
  {
    hide Padding, DecodeBlock, ParseFields;
    if |payload| == 0 || |payload| % 4 != 0 {
      return None;
    }
    var padding := CountPadding(payload);
    if padding > 2 || PAD in payload[..|payload| - padding] {
      return None;
    }
    var decoded := DecodeBlock(payload);
    if decoded.None? || |decoded.value| < padding {
      return None;
    }
    var size := |decoded.value| - padding;
    if size >= DECODED_MAX + 1 {
      return None;
    }
    r := PlainFields(decoded.value[..size]);
  }

  // ---------------------------------------------------------------- the exchange

  datatype State = Idle | WaitData | Done | Refused

  datatype Session = Session(state: State, buffer: CString)

  datatype Reply = Quiet | SendMore | Already | Rejected | Aborted | TooLong | LoggedIn(account: CString)

  /** NickServ's verdict on an account and a password. */
  type Verifier = (CString, CString) -> bool

  /** Everything before the first space. */
  function FirstWord(s: CString): (w: CString)
    ensures SPACE !in w
  {
    if s == [] || s[0] == SPACE then [] else [s[0]] + FirstWord(s[1..])
  }

  function Verdict(c: Option<Fields>, verify: Verifier): (Session, Reply) {
    if c.None? then (Session(Refused, []), Rejected)
    else if c.value.authzid != [] && !EqualFold(c.value.authzid, c.value.authcid) then (Session(Refused, []), Rejected)
    else if !verify(c.value.authcid, c.value.password) then (Session(Refused, []), Rejected)
    else (Session(Done, []), LoggedIn(c.value.authcid))
  }

  /** One AUTHENTICATE command. */
  function Step(s: Session, capable: bool, params: CString, memory: bool, verify: Verifier): (Session, Reply) {
    var word := FirstWord(params);
    if params == [] then (s, Quiet)
    else if s.state == Done then (s, Already)
    else if !capable then (Session(Refused, []), Rejected)
    else if word == ABORT then (Session(Refused, []), Aborted)
    else if s.state == Idle || s.state == Refused then
      if EqualFold(word, MECHANISM) then (Session(WaitData, []), SendMore) else (Session(Refused, []), Rejected)
    else if |word| > FRAME_MAX then (Session(Refused, []), TooLong)
    else if word == FINAL then Verdict(Credentials(s.buffer), verify)
    else if |s.buffer| + |word| > ENCODED_MAX then (Session(Refused, []), TooLong)
    else if !memory then (Session(Refused, []), Rejected)
    else if |word| < FRAME_MAX then Verdict(Credentials(s.buffer + word), verify)
    else (Session(WaitData, s.buffer + word), Quiet)
  }

  class Client {
    const capable: bool
    var state: State
    var buffer: CString

    constructor (capable: bool)
      ensures Now() == Session(Idle, []) && this.capable == capable
    {
      this.capable := capable;
      state, buffer := Idle, [];
    }

    function Now(): Session
      reads this
    {
      Session(state, buffer)
    }

    method Fail()
      modifies this
      ensures Now() == Session(Refused, [])
    {
      buffer := [];
      state := Refused;
    }

    /** sasl_append_frame: 1 appended, 0 over the aggregate limit, -1 out of memory. */
    method AppendFrame(frame: CString, memory: bool) returns (rc: int)
      modifies this`buffer
      ensures rc == if |old(buffer)| + |frame| > ENCODED_MAX then 0 else if !memory then -1 else 1
      ensures buffer == if rc == 1 then old(buffer) + frame else old(buffer)
    {
      if |buffer| > ENCODED_MAX || |frame| > ENCODED_MAX - |buffer| {
        return 0;
      }
      if !memory {
        return -1;
      }
      buffer := buffer + frame;
      rc := 1;
    }

    /** sasl_finish_plain */
    method FinishPlain(verify: Verifier) returns (reply: Reply)
      modifies this
      ensures (Now(), reply) == Verdict(Credentials(old(buffer)), verify)
    {
      var c := DecodePayload(buffer);
      if c.None?
         || (c.value.authzid != [] && !EqualFold(c.value.authzid, c.value.authcid))
         || !verify(c.value.authcid, c.value.password) {
        Fail();
        return Rejected;
      }
      buffer := [];
      state := Done;
      reply := LoggedIn(c.value.authcid);
    }

    /** command_authenticate */
    method Authenticate(params: CString, memory: bool, verify: Verifier) returns (reply: Reply)
      modifies this
      ensures (Now(), reply) == Step(old(Now()), capable, params, memory, verify)
    {
      if params == [] {
        return Quiet;
      }
      var word := FirstWord(params);
      if state == Done {
        return Already;
      }
      if !capable {
        Fail();
        return Rejected;
      }
      if word == ABORT {
        Fail();
        return Aborted;
      }
      if state == Idle || state == Refused {
        if !EqualFold(word, MECHANISM) {
          Fail();
          return Rejected;
        }
        buffer := [];
        state := WaitData;
        return SendMore;
      }
      if |word| > FRAME_MAX {
        Fail();
        return TooLong;
      }
      if word == FINAL {
        reply := FinishPlain(verify);
        return;
      }
      var appended := AppendFrame(word, memory);
      if appended == 0 {
        Fail();
        return TooLong;
      }
      if appended < 0 {
        Fail();
        return Rejected;
      }
      if |word| < FRAME_MAX {
        reply := FinishPlain(verify);
        return;
      }
      reply := Quiet;
    }
  }

  // ---------------------------------------------------------------- a client's frames

  /** How a client sends an encoded message: full frames, then a shorter one or a lone plus. */
  function Frames(encoded: CString): seq<CString> {
    if encoded == [] then [FINAL]
    else if |encoded| < FRAME_MAX then [encoded]
    else [encoded[..FRAME_MAX]] + Frames(encoded[FRAME_MAX..])
  }

  /** The session and the last reply after a list of commands. */
  function Run(s: Session, commands: seq<CString>, verify: Verifier): (Session, Reply)
    decreases |commands|
  {
    if commands == [] then (s, Quiet)
    else if |commands| == 1 then Step(s, true, commands[0], true, verify)
    else Run(Step(s, true, commands[0], true, verify).0, commands[1..], verify)
  }

  /** All replies to a list of commands. */
  function Replies(s: Session, commands: seq<CString>, verify: Verifier): seq<Reply>
    decreases |commands|
  {
    if commands == [] then []
    else
      var (next, reply) := Step(s, true, commands[0], true, verify);
      [reply] + Replies(next, commands[1..], verify)
  }

  predicate Base64Text(s: CString) {
    |s| % 4 == 0 && forall i :: 0 <= i < |s| ==> InAlphabet(s[i]) || s[i] == PAD
  }

  lemma {:induction false} EncodeIsText(m: seq<byte>)
    ensures Base64Text(Encode(m))
  {
    hide Letter, InAlphabet;
    EncodeLength(m);
    if m != [] {
      var a, b, c := m[0], if |m| > 1 then m[1] else 0, if |m| > 2 then m[2] else 0;
      LetterValue(a / 4);
      LetterValue(a % 4 * 16 + b / 16);
      LetterValue(b % 16 * 4 + c / 64);
      LetterValue(c % 64);
      if |m| >= 3 {
        EncodeIsText(m[3..]);
      }
    }
  }

  lemma {:induction false} WholeWord(s: CString)
    requires SPACE !in s
    ensures FirstWord(s) == s
  {
    if s != [] {
      WholeWord(s[1..]);
    }
  }

  /** A data frame is taken whole and is neither the final nor the abort frame. */
  lemma DataFrame(frame: CString)
    requires Base64Text(frame) && frame != []
    ensures FirstWord(frame) == frame && frame != FINAL && frame != ABORT && !EqualFold(frame, MECHANISM)
  {
    WholeWord(frame);
  }

  /** Frames within the limit reach the decoder as the text they were cut from. */
  lemma {:induction false} DeliverFrames(b: CString, encoded: CString, verify: Verifier)
    requires Base64Text(encoded) && |b| + |encoded| <= ENCODED_MAX
    ensures Run(Session(WaitData, b), Frames(encoded), verify) == Verdict(Credentials(b + encoded), verify)
    decreases |encoded|
  {
    hide Credentials, Verdict, EqualFold;
    if encoded == [] {
      assert b + encoded == b;
      WholeWord(FINAL);
    } else if |encoded| < FRAME_MAX {
      DataFrame(encoded);
    } else {
      var head, rest := encoded[..FRAME_MAX], encoded[FRAME_MAX..];
      DataFrame(head);
      assert Step(Session(WaitData, b), true, head, true, verify) == (Session(WaitData, b + head), Quiet);
      DeliverFrames(b + head, rest, verify);
      assert b + head + rest == b + encoded;
      assert Frames(encoded)[1..] == Frames(rest);
    }
  }

  /** A session in which PLAIN can be asked for: at the start and after any refusal or abort. */
  predicate Askable(s: Session) { s.state == Idle || s.state == Refused }

  /**
   The round trip: for every authorization identity, non-empty account and non-empty
   password whose encoding fits, a client that asks for PLAIN, in whatever case, and
   sends its frames is judged on exactly the fields it sent, at the start as well as
   after any failed attempt.
   */
  lemma RoundTrip(s: Session, ask: CString, f: Fields, verify: Verifier)
    requires Askable(s) && EqualFold(FirstWord(ask), MECHANISM)
    requires Complete(f) && |Encode(Message(f))| <= ENCODED_MAX
    ensures var (session, reply) := Run(s, [ask] + Frames(Encode(Message(f))), verify);
            && (reply == LoggedIn(f.authcid) <==>
                  (f.authzid == [] || EqualFold(f.authzid, f.authcid)) && verify(f.authcid, f.password))
            && (reply != LoggedIn(f.authcid) ==> reply == Rejected)
            && session == Session(if reply == Rejected then Refused else Done, [])
  {
    hide Credentials, Message, Encode;
    var encoded := Encode(Message(f));
    var commands := [ask] + Frames(encoded);
    EncodeIsText(Message(f));
    AskAccepted(s, ask, verify);
    assert commands[1..] == Frames(encoded);
    DeliverFrames([], encoded, verify);
    assert [] + encoded == encoded;
    CredentialsRecovered(f);
  }

  lemma AskAccepted(s: Session, ask: CString, verify: Verifier)
    requires Askable(s) && EqualFold(FirstWord(ask), MECHANISM)
    ensures Step(s, true, ask, true, verify) == (Session(WaitData, []), SendMore)
  {
  }

  /** The word PLAIN itself is accepted, and so is any mix of cases. */
  lemma MechanismAccepted(ask: CString)
    requires |ask| == 5 && forall i :: 0 <= i < 5 ==> ask[i] == MECHANISM[i] || ask[i] == MECHANISM[i] + 32
    ensures EqualFold(FirstWord(ask), MECHANISM)
  {
    hide FirstWord;
    assert SPACE !in ask;
    WholeWord(ask);
  }

  /** Until someone is logged in an abort is answered, clears what was collected and lets PLAIN be asked for again. */
  lemma AbortRestarts(s: Session, params: CString, memory: bool, verify: Verifier)
    requires s.state != Done && FirstWord(params) == ABORT
    ensures var (next, reply) := Step(s, true, params, memory, verify);
            reply == Aborted && next == Session(Refused, []) && Askable(next)
  {
    assert params != [];
  }

  /** A frame over 400 bytes is answered as too long and clears what was collected. */
  lemma LongFrameRefused(b: CString, params: CString, memory: bool, verify: Verifier)
    requires |FirstWord(params)| > 400
    ensures Step(Session(WaitData, b), true, params, memory, verify) == (Session(Refused, []), TooLong)
  {
    assert params != [];
  }

  /** A full frame that fits is collected and not answered. */
  lemma FullFrameCollected(b: CString, params: CString, verify: Verifier)
    requires |FirstWord(params)| == 400 && |b| + 400 <= 800
    ensures Step(Session(WaitData, b), true, params, true, verify) == (Session(WaitData, b + FirstWord(params)), Quiet)
  {
    assert params != [];
  }

  /** Who is logged in stays so, and without the capability nothing but a refusal is to be had. */
  lemma NothingElse(s: Session, capable: bool, params: CString, memory: bool, verify: Verifier)
    requires params != []
    ensures s.state == Done ==> Step(s, capable, params, memory, verify) == (s, Already)
    ensures s.state != Done && !capable ==> Step(s, capable, params, memory, verify) == (Session(Refused, []), Rejected)
    ensures Askable(s) && capable && FirstWord(params) != ABORT && !EqualFold(FirstWord(params), MECHANISM) ==>
              Step(s, capable, params, memory, verify) == (Session(Refused, []), Rejected)
  {
  }

  // ---------------------------------------------------------------- who gets in

  /** The payload names the account, and the verifier accepts it with the password the payload gives. */
  ghost predicate Verified(payload: CString, account: CString, verify: Verifier) {
    var c := Credentials(payload);
    && c.Some? && account == c.value.authcid && verify(c.value.authcid, c.value.password)
    && (c.value.authzid == [] || EqualFold(c.value.authzid, c.value.authcid))
  }

  /** What a final frame completes. */
  function Completed(buffer: CString, word: CString): CString {
    if word == FINAL then buffer else buffer + word
  }

  /** Whatever is sent in whatever state, a login means that the completed payload was verified. */
  lemma LoginOnlyVerified(s: Session, capable: bool, params: CString, memory: bool, verify: Verifier)
    ensures var (next, reply) := Step(s, capable, params, memory, verify);
            && (reply.LoggedIn? ==>
                  && s.state == WaitData && capable && |FirstWord(params)| < FRAME_MAX
                  && Verified(Completed(s.buffer, FirstWord(params)), reply.account, verify))
            && (next.state == Done ==> reply.LoggedIn? || s.state == Done)
  {
    hide Credentials;
  }

  /** An AUTHENTICATE command with everything its outcome depends on. */
  datatype Input = Input(params: CString, capable: bool, memory: bool, verify: Verifier)

  /** The session and the reply after the last of some inputs. */
  ghost function After(inputs: seq<Input>): (Session, Reply) {
    if |inputs| == 0 then (Session(Idle, []), Quiet)
    else
      var i := inputs[|inputs| - 1];
      Step(After(inputs[..|inputs| - 1]).0, i.capable, i.params, i.memory, i.verify)
  }

  /** The mechanism is asked for and accepted at input p. */
  ghost predicate Begins(inputs: seq<Input>, p: nat)
    requires p < |inputs|
  {
    && inputs[p].capable && inputs[p].params != [] && EqualFold(FirstWord(inputs[p].params), MECHANISM)
    && (After(inputs[..p]).0.state == Idle || After(inputs[..p]).0.state == Refused)
  }

  /** A full data frame, or an empty command, which does nothing. */
  predicate Full(i: Input) { i.params == [] || (i.capable && |FirstWord(i.params)| == FRAME_MAX) }

  /** The text of the data frames. */
  function Spelled(inputs: seq<Input>): CString {
    if |inputs| == 0 then [] else Spelled(inputs[..|inputs| - 1]) + FirstWord(inputs[|inputs| - 1].params)
  }

  /** Everything since input p is one unfinished exchange. */
  ghost predicate Exchange(inputs: seq<Input>, p: nat) {
    p < |inputs| && Begins(inputs, p) && forall k :: p < k < |inputs| ==> Full(inputs[k])
  }

  /** A receiver that waits for data has been asked for PLAIN and holds the frames sent since. */
  lemma {:induction false} Waiting(inputs: seq<Input>) returns (p: nat)
    requires After(inputs).0.state == WaitData
    ensures Exchange(inputs, p) && After(inputs).0.buffer == Spelled(inputs[p + 1..])
  {
    hide Credentials, EqualFold, FirstWord;
    var front, last := inputs[..|inputs| - 1], inputs[|inputs| - 1];
    var before := After(front).0;
    if before.state == WaitData {
      p := Waiting(front);
      assert inputs[..p] == front[..p];
      assert Begins(inputs, p);
      StillWaiting(before, last);
      assert inputs[p + 1..][..|inputs| - p - 2] == front[p + 1..];
      assert inputs[p + 1..][|inputs| - p - 2] == last;
      forall k | p < k < |inputs| ensures Full(inputs[k]) {
        assert k < |front| ==> inputs[k] == front[k];
      }
    } else {
      p := |front|;
      assert inputs[..p] == front && inputs[p + 1..] == [];
      StartsWaiting(before, last);
    }
  }

  lemma StillWaiting(s: Session, i: Input)
    requires s.state == WaitData && Step(s, i.capable, i.params, i.memory, i.verify).0.state == WaitData
    ensures Full(i) && Step(s, i.capable, i.params, i.memory, i.verify).0.buffer == s.buffer + FirstWord(i.params)
  {
    hide Credentials;
    assert FirstWord([]) == [];
    assert s.buffer + [] == s.buffer;
  }

  lemma StartsWaiting(s: Session, i: Input)
    requires s.state != WaitData && Step(s, i.capable, i.params, i.memory, i.verify).0.state == WaitData
    ensures s.state == Idle || s.state == Refused
    ensures i.capable && i.params != [] && EqualFold(FirstWord(i.params), MECHANISM)
    ensures Step(s, i.capable, i.params, i.memory, i.verify).0.buffer == []
  {
  }

  /**
   The converse of the round trip, over every run of commands: a login means that
   since the last accepted PLAIN only full frames and a final one were sent, and
   that the verifier accepted exactly the credentials they spell.
   */
  lemma LoginMeansVerified(inputs: seq<Input>) returns (p: nat)
    requires |inputs| > 0 && After(inputs).1.LoggedIn?
    ensures var n := |inputs| - 1;
            && p < n && Exchange(inputs[..n], p)
            && |FirstWord(inputs[n].params)| < FRAME_MAX
            && Verified(Completed(Spelled(inputs[p + 1..n]), FirstWord(inputs[n].params)),
                        After(inputs).1.account, inputs[n].verify)
  {
    hide Credentials, Step, Verified, EqualFold, FirstWord;
    var n := |inputs| - 1;
    var front, last := inputs[..n], inputs[n];
    LoginOnlyVerified(After(front).0, last.capable, last.params, last.memory, last.verify);
    p := Waiting(front);
    assert front[p + 1..] == inputs[p + 1..n];
  }

  /** Behind a refusal no base64 frame leads anywhere. */
  lemma {:induction false} RefusedStays(b: CString, encoded: CString, verify: Verifier)
    requires Base64Text(encoded)
    ensures forall r :: r in Replies(Session(Refused, b), Frames(encoded), verify) ==> r == Rejected
    decreases |encoded|
  {
    if encoded == [] {
      WholeWord(FINAL);
    } else if |encoded| < FRAME_MAX {
      DataFrame(encoded);
    } else {
      DataFrame(encoded[..FRAME_MAX]);
      RefusedStays([], encoded[FRAME_MAX..], verify);
    }
  }

  /** An encoding over the limit is answered with the too-long error and never logs anyone in. */
  lemma {:induction false} OverlongRefused(b: CString, encoded: CString, verify: Verifier)
    requires Base64Text(encoded) && |b| <= ENCODED_MAX && |b| + |encoded| > ENCODED_MAX
    ensures TooLong in Replies(Session(WaitData, b), Frames(encoded), verify)
    ensures forall r :: r in Replies(Session(WaitData, b), Frames(encoded), verify) ==> !r.LoggedIn?
    decreases |encoded|
  {
    hide Credentials, Verdict, EqualFold;
    if |encoded| < FRAME_MAX {
      DataFrame(encoded);
      assert Step(Session(WaitData, b), true, encoded, true, verify) == (Session(Refused, []), TooLong);
    } else {
      var head, rest := encoded[..FRAME_MAX], encoded[FRAME_MAX..];
      DataFrame(head);
      if |b| + FRAME_MAX > ENCODED_MAX {
        assert Step(Session(WaitData, b), true, head, true, verify) == (Session(Refused, []), TooLong);
        RefusedStays([], rest, verify);
      } else {
        assert Step(Session(WaitData, b), true, head, true, verify) == (Session(WaitData, b + head), Quiet);
        OverlongRefused(b + head, rest, verify);
      }
    }
  }
}
