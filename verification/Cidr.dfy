/**
 CIDR matching of ban_db.c and the network computation of geoip.c. Addresses are
 the bytes inet_pton yields: four for IPv4 and sixteen for IPv6, most significant
 first. Both functions work on bytes and masks; here they are tied to the numbers
 those bytes spell.
 */
module Cidr {
  import opened Arithmetic
  import opened Text

  // ---------------------------------------------------------------- unsigned words

  function Pow2(n: nat): (p: nat)
    ensures p > 0
  {
    if n == 0 then 1 else 2 * Pow2(n - 1)
  }

  /** Bitwise and of two numbers of w bits. */
  function And(w: nat, a: nat, b: nat): nat {
    if w == 0 then 0 else 2 * And(w - 1, a / 2, b / 2) + if a % 2 == 1 && b % 2 == 1 then 1 else 0
  }

  /** A left shift in an unsigned word of w bits. */
  function ShiftLeft(w: nat, a: nat, k: nat): nat { Rest(a * Pow2(k), Pow2(w)) }

  lemma {:induction false} Pow2Sum(a: nat, b: nat)
    ensures Pow2(a + b) == Pow2(a) * Pow2(b)
  {
    if a > 0 {
      Pow2Sum(a - 1, b);
      assert Pow2(a) * Pow2(b) == 2 * (Pow2(a - 1) * Pow2(b));
    }
  }

  lemma {:induction false} Pow2Below(k: nat, w: nat)
    requires k <= w
    ensures Pow2(k) <= Pow2(w)
    decreases w
  {
    if k < w {
      Pow2Below(k, w - 1);
    }
  }

  /** The all-ones word shifted left keeps the ones above position k. */
  lemma TopMask(w: nat, k: nat)
    requires k <= w
    ensures Pow2(k) <= Pow2(w) && ShiftLeft(w, Pow2(w) - 1, k) == Pow2(w) - Pow2(k)
  {
    hide Pow2, Rest;
    var p, q := Pow2(w), Pow2(k);
    Pow2Below(k, w);
    Distribute(p, -1, q);
    Distribute(q, -1, p);
    DivUnique((p - 1) * q, q - 1, p, p - q);
  }

  lemma {:induction false} AndOnes(w: nat, a: nat)
    requires a < Pow2(w)
    ensures And(w, a, Pow2(w) - 1) == a
  {
    if w > 0 {
      assert (Pow2(w) - 1) / 2 == Pow2(w - 1) - 1;
      AndOnes(w - 1, a / 2);
    }
  }

  lemma HalfModulo(a: nat, m: nat)
    requires m > 0
    ensures Rest(a, 2 * m) == 2 * Rest(a / 2, m) + a % 2
  {
    hide Quotient, Rest;
    var h := a / 2;
    Divided(h, m);
    var q := Quotient(h, m);
    Associate(q, 2, m);
    Associate(2, q, m);
    DivUnique(a, q, 2 * m, 2 * Rest(h, m) + a % 2);
  }

  /** Masking with it clears the low k bits. */
  lemma {:induction false} AndTop(w: nat, a: nat, k: nat)
    requires k <= w && a < Pow2(w)
    ensures Pow2(k) <= Pow2(w) && And(w, a, Pow2(w) - Pow2(k)) == a - Rest(a, Pow2(k))
    decreases w
  {
    if k == 0 {
      AndOnes(w, a);
    } else {
      hide Rest;
      AndTop(w - 1, a / 2, k - 1);
      assert (Pow2(w) - Pow2(k)) / 2 == Pow2(w - 1) - Pow2(k - 1);
      HalfModulo(a, Pow2(k - 1));
    }
  }

  lemma MaskClears(w: nat, a: nat, k: nat)
    requires k <= w && a < Pow2(w)
    ensures And(w, a, ShiftLeft(w, Pow2(w) - 1, k)) == a - Rest(a, Pow2(k))
  {
    hide Pow2, And, ShiftLeft, Rest;
    TopMask(w, k);
    AndTop(w, a, k);
  }

  // ---------------------------------------------------------------- addresses as numbers

  type Address = a: seq<byte> | |a| == 4 || |a| == 16 witness [0, 0, 0, 0]

  /** The number a byte string spells, most significant byte first. */
  function Value(bytes: seq<byte>): nat {
    if bytes == [] then 0 else Value(bytes[..|bytes| - 1]) * 256 + bytes[|bytes| - 1]
  }

  /** The first prefix bits of an address, as a number. */
  function TopBits(a: seq<byte>, prefix: nat): nat
    requires prefix <= 8 * |a|
  {
    Quotient(Value(a), Pow2(8 * |a| - prefix))
  }

  /** Length of n bytes in values. */
  lemma Pow2Step(n: nat)
    ensures Pow2(8 * n + 8) == 256 * Pow2(8 * n)
  {
    Pow2Sum(8, 8 * n);
    assert Pow2(8) == 256;
  }

  lemma {:induction false} ValueBound(b: seq<byte>)
    ensures Value(b) < Pow2(8 * |b|)
  {
    if b != [] {
      ValueBound(b[..|b| - 1]);
      Pow2Step(|b| - 1);
    }
  }

  /** A number with so many zero bytes behind it. */
  function Scaled(v: int, bytes: nat): int { v * Pow2(8 * bytes) }

  lemma ScaledStep(v: int, n: nat)
    ensures Scaled(v, n + 1) == Scaled(v, n) * 256 && Scaled(v, 0) == v
  {
    hide Pow2;
    Pow2Step(n);
    Pow2Of8();
    Associate(v, Pow2(8 * n), 256);
  }

  lemma {:induction false} ValueConcat(a: seq<byte>, b: seq<byte>)
    ensures Value(a + b) == Scaled(Value(a), |b|) + Value(b)
    decreases |b|
  {
    hide Scaled;
    if b == [] {
      assert a + b == a;
      ScaledStep(Value(a), 0);
    } else {
      var front := b[..|b| - 1];
      assert (a + b)[..|a + b| - 1] == a + front;
      ValueConcat(a, front);
      ScaledStep(Value(a), |front|);
    }
  }

  /** Byte strings of one length spell different numbers unless they are equal. */
  lemma {:induction false} ValueInjective(a: seq<byte>, b: seq<byte>)
    requires |a| == |b| && Value(a) == Value(b)
    ensures a == b
  {
    if a != [] {
      ValueInjective(a[..|a| - 1], b[..|b| - 1]);
      assert a == a[..|a| - 1] + [a[|a| - 1]];
      assert b == b[..|b| - 1] + [b[|b| - 1]];
    }
  }

  lemma DivDiv(a: nat, m: nat, n: nat)
    requires m > 0 && n > 0
    ensures m * n > 0 && Quotient(Quotient(a, m), n) == Quotient(a, m * n)
  {
    hide Quotient, Rest;
    var q, r := Quotient(a, m), Rest(a, m);
    var d, e := Quotient(q, n), Rest(q, n);
    Divided(a, m);
    Divided(q, n);
    Distribute(d * n, e, m);
    Associate(d, n, m);
    Distribute(e + 1, n - e - 1, m);
    Distribute(e, 1, m);
    Positive(n - e - 1, m);
    Positive(e, m);
    assert m * n == n * m;
    DivUnique(a, d, m * n, e * m + r);
  }

  /** Whole bytes: the top bits are the number the leading bytes spell. */
  lemma TopWhole(a: seq<byte>, whole: nat)
    requires whole <= |a|
    ensures TopBits(a, 8 * whole) == Value(a[..whole])
  {
    hide Pow2, Quotient, Rest, Value;
    var head, tail := a[..whole], a[whole..];
    assert a == head + tail;
    ValueConcat(head, tail);
    ValueBound(tail);
    assert 8 * |a| - 8 * whole == 8 * |tail|;
    DivUnique(Value(a), Value(head), Pow2(8 * |tail|), Value(tail));
  }

  /** A prefix that ends inside a byte: the leading bytes and the top bits of the next. */
  lemma TopSplit(a: seq<byte>, whole: nat, rest: nat)
    requires whole < |a| && 0 < rest < 8
    ensures TopBits(a, 8 * whole + rest) == Value(a[..whole]) * Pow2(rest) + Quotient(a[whole], Pow2(8 - rest))
    ensures Quotient(a[whole], Pow2(8 - rest)) < Pow2(rest)
  {
    hide Pow2, Quotient;
    var next, low := a[..whole + 1], Pow2(8 - rest);
    TopWhole(a, whole + 1);
    assert next[..|next| - 1] == a[..whole];
    var drop := 8 * |a| - 8 * (whole + 1);
    Pow2Sum(drop, 8 - rest);
    DivDiv(Value(a), Pow2(drop), low);
    assert TopBits(a, 8 * whole + rest) == Quotient(Value(next), low);
    Pow2Sum(rest, 8 - rest);
    Pow2Of8();
    SplitByte(Value(a[..whole]), a[whole], Pow2(rest), low);
  }

  lemma Pow2Of8()
    ensures Pow2(0) == 1 && Pow2(8) == 256 && Pow2(32) == 0x1_0000_0000
  {
    Pow2Sum(8, 8);
    Pow2Sum(16, 16);
    assert Pow2(8) == 256;
  }

  lemma SplitByte(head: nat, x: byte, high: nat, low: nat)
    requires high > 0 && low > 0 && high * low == 256
    ensures Quotient(head * 256 + x, low) == head * high + Quotient(x, low)
    ensures Rest(head * 256 + x, low) == Rest(x, low)
    ensures Quotient(x, low) < high
  {
    hide Quotient, Rest;
    var q, r := Quotient(x, low), Rest(x, low);
    Divided(x, low);
    Associate(head, high, low);
    Distribute(head * high, q, low);
    Positive(head, high);
    DivUnique(head * 256 + x, head * high + q, low, r);
    if q >= high {
      Distribute(high, q - high, low);
      Positive(q - high, low);
      assert false;
    }
  }

  /** Two numbers agree after masking exactly when they agree above the cleared bits. */
  lemma ClearedEqual(x: nat, y: nat, m: nat)
    requires m > 0
    ensures x - Rest(x, m) == y - Rest(y, m) <==> Quotient(x, m) == Quotient(y, m)
  {
    hide Quotient, Rest;
    Divided(x, m);
    Divided(y, m);
    if x - Rest(x, m) == y - Rest(y, m) {
      DivUnique(x - Rest(x, m), Quotient(x, m), m, 0);
      DivUnique(y - Rest(y, m), Quotient(y, m), m, 0);
    }
  }

  lemma PairEqual(a: nat, b: nat, c: nat, d: nat, m: nat)
    requires b < m && d < m
    ensures a * m + b == c * m + d <==> a == c && b == d
  {
    hide Quotient, Rest;
    Positive(a, m);
    Positive(c, m);
    DivUnique(a * m + b, a, m, b);
    DivUnique(c * m + d, c, m, d);
  }

  /** What the byte comparison and the remainder mask decide. */
  lemma TopBitsCompared(a: Address, b: Address, prefix: nat)
    requires |a| == |b| && prefix <= 8 * |a|
    ensures var whole, rest := prefix / 8, prefix % 8;
            && (rest == 0 ==> (TopBits(a, prefix) == TopBits(b, prefix) <==> a[..whole] == b[..whole]))
            && (rest != 0 ==> (TopBits(a, prefix) == TopBits(b, prefix) <==>
                                 && a[..whole] == b[..whole]
                                 && Quotient(a[whole], Pow2(8 - rest)) == Quotient(b[whole], Pow2(8 - rest))))
  {
    hide Pow2, Value, TopBits;
    var whole, rest := prefix / 8, prefix % 8;
    assert prefix == 8 * whole + rest;
    if Value(a[..whole]) == Value(b[..whole]) {
      ValueInjective(a[..whole], b[..whole]);
    }
    if rest == 0 {
      TopWhole(a, whole);
      TopWhole(b, whole);
    } else {
      TopSplit(a, whole, rest);
      TopSplit(b, whole, rest);
      PairEqual(Value(a[..whole]), Quotient(a[whole], Pow2(8 - rest)),
                Value(b[..whole]), Quotient(b[whole], Pow2(8 - rest)), Pow2(rest));
    }
  }

  /** An address lies in a network: same family, a prefix in range, and equal top bits as numbers. */
  predicate Within(network: Address, prefix: nat, candidate: Address) {
    && |candidate| == |network| && prefix <= 8 * |network|
    && TopBits(network, prefix) == TopBits(candidate, prefix)
  }

  /** Bit j of a byte, the most significant one first. */
  function BitOf(x: byte, j: nat): int
    requires j < 8
  {
    Quotient(x, Pow2(7 - j)) % 2
  }

  /** Bit i of an address, the most significant one first. */
  function Bit(a: seq<byte>, i: nat): int
    requires i < 8 * |a|
  {
    BitOf(a[i / 8], i % 8)
  }

  /** The top bits of two bytes are equal as numbers exactly when they are equal one by one. */
  lemma {:induction false} SameBits(x: byte, y: byte, r: nat)
    requires r <= 8
    ensures Quotient(x, Pow2(8 - r)) == Quotient(y, Pow2(8 - r)) <==>
              forall j :: 0 <= j < r ==> BitOf(x, j) == BitOf(y, j)
  {
    hide Pow2, Quotient;
    if r == 0 {
      Pow2Of8();
      DivUnique(x, 0, 256, x);
      DivUnique(y, 0, 256, y);
    } else {
      SameBits(x, y, r - 1);
      NextBit(x, r - 1);
      NextBit(y, r - 1);
    }
  }

  lemma NextBit(x: byte, r: nat)
    requires r < 8
    ensures Quotient(x, Pow2(7 - r)) == 2 * Quotient(x, Pow2(8 - r)) + BitOf(x, r)
  {
    hide Quotient;
    var m := Pow2(7 - r);
    DivDiv(x, m, 2);
    assert Pow2(8 - r) == m * 2;
    Divided(Quotient(x, m), 2);
    Halved(Quotient(x, m));
  }

  lemma Halved(q: nat)
    ensures q == 2 * Quotient(q, 2) + q % 2
  {
  }

  lemma SameByte(x: byte, y: byte)
    ensures x == y <==> forall j :: 0 <= j < 8 ==> BitOf(x, j) == BitOf(y, j)
  {
    hide BitOf, Quotient, Rest;
    SameBits(x, y, 8);
    Pow2Of8();
    DivUnique(x, x, 1, 0);
    DivUnique(y, y, 1, 0);
  }

  ghost predicate SameUpTo(a: Address, b: Address, prefix: nat) {
    && |a| == |b| && prefix <= 8 * |a|
    && forall i :: 0 <= i < prefix ==> Bit(a, i) == Bit(b, i)
  }

  /** An address lies in a network exactly when both have the same length and the same first bits. */
  lemma WithinBitwise(network: Address, prefix: nat, candidate: Address)
    ensures Within(network, prefix, candidate) <==> SameUpTo(network, candidate, prefix)
  {
    hide Pow2, TopBits, Quotient, BitOf, Bit;
    if |candidate| == |network| && prefix <= 8 * |network| {
      TopBitsCompared(network, candidate, prefix);
      if Within(network, prefix, candidate) {
        forall i | 0 <= i < prefix ensures Bit(network, i) == Bit(candidate, i) {
          BitsFollow(network, candidate, prefix, i);
        }
      } else {
        forall k | SameUpTo(network, candidate, prefix) && 0 <= k < prefix / 8 ensures network[k] == candidate[k] {
          BytesFollow(network, candidate, prefix, k, 8);
        }
        if SameUpTo(network, candidate, prefix) {
          SameFront(network, candidate, prefix / 8);
          if prefix % 8 != 0 {
            BytesFollow(network, candidate, prefix, prefix / 8, prefix % 8);
          }
          assert false;
        }
      }
    }
  }

  lemma SameFront(a: Address, b: Address, n: nat)
    requires n <= |a| == |b| && forall k :: 0 <= k < n ==> a[k] == b[k]
    ensures a[..n] == b[..n]
  {
  }

  lemma BitsFollow(a: Address, b: Address, prefix: nat, i: nat)
    requires |a| == |b| && i < prefix <= 8 * |a| && a[..prefix / 8] == b[..prefix / 8]
    requires prefix % 8 != 0 ==>
               Quotient(a[prefix / 8], Pow2(8 - prefix % 8)) == Quotient(b[prefix / 8], Pow2(8 - prefix % 8))
    ensures Bit(a, i) == Bit(b, i)
  {
    hide Pow2, Quotient, BitOf;
    if i / 8 < prefix / 8 {
      assert a[..prefix / 8][i / 8] == b[..prefix / 8][i / 8];
    } else {
      SameBits(a[prefix / 8], b[prefix / 8], prefix % 8);
    }
  }

  lemma BytesFollow(a: Address, b: Address, prefix: nat, k: nat, r: nat)
    requires SameUpTo(a, b, prefix) && 0 < r <= 8 && 8 * k + r <= prefix
    ensures Quotient(a[k], Pow2(8 - r)) == Quotient(b[k], Pow2(8 - r))
    ensures r == 8 ==> a[k] == b[k]
  {
    hide Pow2, Quotient, BitOf;
    forall j | 0 <= j < r ensures BitOf(a[k], j) == BitOf(b[k], j) {
      assert Bit(a, 8 * k + j) == Bit(b, 8 * k + j);
    }
    SameBits(a[k], b[k], r);
    if r == 8 {
      SameByte(a[k], b[k]);
    }
  }

  /** cidr_match once the network, its prefix length and the address have been read. */
  method CidrMatch(network: Address, prefix: nat, candidate: Address) returns (r: bool)
    ensures r <==> Within(network, prefix, candidate)
  {
    hide Pow2, And, ShiftLeft, TopBits;
    if prefix > 8 * |network| || |candidate| != |network| {
      return false;
    }
    var whole, rest := prefix / 8, prefix % 8;
    TopBitsCompared(network, candidate, prefix);
    if whole > 0 && network[..whole] != candidate[..whole] {
      return false;
    }
    if rest != 0 {
      var mask := ShiftLeft(8, 0xFF, 8 - rest);
      Pow2Of8();
      MaskClears(8, network[whole], 8 - rest);
      MaskClears(8, candidate[whole], 8 - rest);
      ClearedEqual(network[whole], candidate[whole], Pow2(8 - rest));
      if And(8, network[whole], mask) != And(8, candidate[whole], mask) {
        return false;
      }
    }
    r := true;
  }

  // ---------------------------------------------------------------- network_string

  /** The lowest address of the network a number lies in, when the low bits are the host part. */
  function Base(v: nat, low: nat): nat { v - Rest(v, Pow2(low)) }

  /** An address and the base of its network agree on the prefix. */
  lemma BaseSameTop(v: nat, low: nat)
    ensures Quotient(Base(v, low), Pow2(low)) == Quotient(v, Pow2(low))
  {
    hide Quotient, Rest, Pow2;
    Divided(v, Pow2(low));
    DivUnique(Base(v, low), Quotient(v, Pow2(low)), Pow2(low), 0);
  }

  /** Two addresses have one network exactly when a match with either network finds the other. */
  lemma SameNetwork(a: Address, b: Address, network: Address, prefix: nat)
    requires |a| == |b| == |network| && prefix <= 8 * |a|
    requires Value(network) == Base(Value(a), 8 * |a| - prefix)
    ensures TopBits(network, prefix) == TopBits(b, prefix) <==>
              Base(Value(b), 8 * |b| - prefix) == Value(network)
  {
    hide Pow2, Value, Quotient, Rest;
    var low := 8 * |a| - prefix;
    BaseSameTop(Value(a), low);
    ClearedEqual(Value(a), Value(b), Pow2(low));
  }

  /** htonl: the four bytes of a 32-bit number. */
  function Bytes(n: nat, v: nat): (b: seq<byte>)
    ensures |b| == n
  {
    if n == 0 then [] else Bytes(n - 1, v / 256) + [v % 256]
  }

  lemma {:induction false} BytesValue(n: nat, v: nat)
    requires v < Pow2(8 * n)
    ensures Value(Bytes(n, v)) == v
  {
    if n > 0 {
      Pow2Step(n - 1);
      BytesValue(n - 1, v / 256);
      var b := Bytes(n, v);
      assert b[..n - 1] == Bytes(n - 1, v / 256);
    }
  }

  /** IPv4 records in an IPv6 database report a prefix that counts the 96 mapped bits. */
  function V4Prefix(raw: nat): Option<nat> {
    var prefix := if raw > 32 && raw >= 96 then raw - 96 else raw;
    if prefix > 32 then None else Some(prefix)
  }

  function NetworkPrefix(a: Address, raw: nat): Option<nat> {
    if |a| == 4 then V4Prefix(raw) else if raw <= 128 then Some(raw) else None
  }

  lemma {:induction false} ZeroTail(head: seq<byte>, bytes: seq<byte>)
    requires |head| <= |bytes| && bytes[..|head|] == head
    requires forall i :: |head| <= i < |bytes| ==> bytes[i] == 0
    ensures Value(bytes) == Scaled(Value(head), |bytes| - |head|)
    decreases |bytes|
  {
    hide Scaled;
    if |bytes| == |head| {
      assert bytes == head;
      ScaledStep(Value(head), 0);
    } else {
      var front := bytes[..|bytes| - 1];
      assert front[..|head|] == head;
      ZeroTail(head, front);
      ScaledStep(Value(head), |front| - |head|);
    }
  }

  /** Clearing the low bits of the leading number and zeroing the rest gives the base. */
  lemma ClearedBase(v: nat, high: nat, tail: nat, k: nat, drop: nat)
    requires tail < Pow2(drop) && v == high * Pow2(drop) + tail
    ensures (high - Rest(high, Pow2(k))) * Pow2(drop) == Base(v, drop + k)
  {
    hide Pow2, Quotient, Rest;
    Pow2Sum(drop, k);
    var m, p := Pow2(k), Pow2(drop);
    var q, r := Quotient(high, m), Rest(high, m);
    Divided(high, m);
    Distribute(q * m, r, p);
    Associate(q, m, p);
    assert m * p == p * m;
    Distribute(r + 1, m - r - 1, p);
    Distribute(r, 1, p);
    Positive(m - r - 1, p);
    Positive(r, p);
    DivUnique(v, q, p * m, r * p + tail);
  }

  /** The in-place masking of an IPv6 address: the partial byte, then zeros. */
  method MaskV6(address: array<byte>, prefix: nat)
    requires address.Length == 16 && prefix <= 128
    modifies address
    ensures Value(address[..]) == Base(Value(old(address[..])), 128 - prefix)
  {
    hide Pow2, And, ShiftLeft, Value, Base, Scaled;
    ghost var a := address[..];
    var full, rest := prefix / 8, prefix % 8;
    ghost var head := a[..full];
    if full < 16 {
      if rest != 0 {
        Pow2Of8();
        MaskClears(8, address[full], 8 - rest);
        address[full] := And(8, address[full], ShiftLeft(8, 0xFF, 8 - rest));
        head := head + [address[full]];
        full := full + 1;
      }
      for i := full to 16
        invariant address[..full] == head
        invariant forall j :: full <= j < i ==> address[j] == 0
      {
        address[i] := 0;
      }
      ZeroTail(head, address[..]);
      MaskedBase(a, prefix, head);
    } else {
      BaseZero(Value(a));
    }
  }

  lemma BaseZero(v: nat)
    ensures Base(v, 0) == v
  {
  }

  /** The bytes that are kept, with the last one masked, spell the kept number with its low bits cleared. */
  lemma HeadCleared(a: seq<byte>, full: nat, rest: nat)
    requires full < |a| && 0 < rest < 8
    ensures var lead := Value(a[..full + 1]);
            Value(a[..full] + [a[full] - Rest(a[full], Pow2(8 - rest))]) == lead - Rest(lead, Pow2(8 - rest))
  {
    hide Pow2, Rest;
    var lead := a[..full + 1];
    assert lead[..full] == a[..full];
    var head := a[..full] + [a[full] - Rest(a[full], Pow2(8 - rest))];
    assert head[..full] == a[..full];
    Pow2Of8();
    Pow2Sum(rest, 8 - rest);
    SplitByte(Value(a[..full]), a[full], Pow2(rest), Pow2(8 - rest));
  }

  /** The kept bytes, cleared below k, over the dropped ones. */
  lemma SplitBase(a: seq<byte>, n: nat, k: nat)
    requires n <= |a|
    ensures Scaled(Value(a[..n]) - Rest(Value(a[..n]), Pow2(k)), |a| - n) == Base(Value(a), 8 * (|a| - n) + k)
  {
    hide Pow2, Base, Rest, Value;
    var lead, tail := a[..n], a[n..];
    assert a == lead + tail;
    ValueConcat(lead, tail);
    ValueBound(tail);
    ClearedBase(Value(a), Value(lead), Value(tail), k, 8 * |tail|);
  }

  lemma MaskedBase(a: seq<byte>, prefix: nat, head: seq<byte>)
    requires |a| == 16 && prefix < 128
    requires var full, rest := prefix / 8, prefix % 8;
             head == if rest == 0 then a[..full] else a[..full] + [a[full] - Rest(a[full], Pow2(8 - rest))]
    ensures Scaled(Value(head), 16 - |head|) == Base(Value(a), 128 - prefix)
  {
    hide Pow2, Base, Rest, Value, Scaled;
    var full, rest := prefix / 8, prefix % 8;
    if rest == 0 {
      SplitBase(a, full, 0);
      Pow2Of8();
      NoRest(Value(a[..full]));
    } else {
      SplitBase(a, full + 1, 8 - rest);
      HeadCleared(a, full, rest);
    }
  }

  lemma NoRest(v: nat)
    ensures Rest(v, 1) == 0
  {
  }

  /** network_string before it is formatted: the network and prefix length of an address, if it has one. */
  method NetworkOf(address: Address, rawPrefix: nat) returns (network: Address, prefix: Option<nat>)
    ensures prefix == NetworkPrefix(address, rawPrefix)
    ensures |address| == 4 ==>
              prefix == if rawPrefix <= 32 then Some(rawPrefix)
                        else if 96 <= rawPrefix <= 128 then Some(rawPrefix - 96) else None
    ensures |address| == 16 ==> prefix == if rawPrefix <= 128 then Some(rawPrefix) else None
    ensures prefix.Some? ==>
              && |network| == |address| && prefix.value <= 8 * |address|
              && Value(network) == Base(Value(address), 8 * |address| - prefix.value)
              && TopBits(network, prefix.value) == TopBits(address, prefix.value)
  {
    hide Pow2, And, ShiftLeft, Value, Base, Bytes;
    network := address;
    prefix := NetworkPrefix(address, rawPrefix);
    if prefix.None? {
      return;
    }
    BaseSameTop(Value(address), 8 * |address| - prefix.value);
    if |address| == 4 {
      var number := Value(address);
      var mask := if prefix.value == 0 then 0 else ShiftLeft(32, 0xFFFF_FFFF, 32 - prefix.value);
      ValueBound(address);
      Pow2Of8();
      MaskV4(number, prefix.value);
      number := And(32, number, mask);
      BytesValue(4, number);
      network := Bytes(4, number);
    } else {
      var bytes := new byte[16](i requires 0 <= i < 16 => address[i]);
      assert bytes[..] == address;
      MaskV6(bytes, prefix.value);
      network := bytes[..];
    }
  }

  lemma MaskV4(v: nat, prefix: nat)
    requires v < Pow2(32) && prefix <= 32
    ensures Pow2(32) == 0x1_0000_0000
    ensures And(32, v, if prefix == 0 then 0 else ShiftLeft(32, 0xFFFF_FFFF, 32 - prefix)) == Base(v, 32 - prefix)
    ensures Base(v, 32 - prefix) < Pow2(32)
  {
    hide Pow2, And, ShiftLeft, Rest, Quotient;
    Pow2Of8();
    if prefix == 0 {
      AndZero(32, v);
      DivUnique(v, 0, Pow2(32), v);
    } else {
      MaskClears(32, v, 32 - prefix);
    }
  }

  lemma {:induction false} AndZero(w: nat, a: nat)
    ensures And(w, a, 0) == 0
  {
    if w > 0 {
      AndZero(w - 1, a / 2);
    }
  }

  /** A network computed from an address matches it, and matches another address exactly when both have that network. */
  method MatchNetwork(address: Address, rawPrefix: nat, other: Address)
    returns (network: Address, prefix: Option<nat>, own: bool, others: bool)
    ensures prefix == NetworkPrefix(address, rawPrefix)
    ensures prefix.Some? ==>
              && |network| == |address| && prefix.value <= 8 * |address|
              && Value(network) == Base(Value(address), 8 * |address| - prefix.value)
              && (own <==> Within(network, prefix.value, address)) && own
              && (others <==> Within(network, prefix.value, other))
              && (others <==>
                    |other| == |address| && Base(Value(other), 8 * |address| - prefix.value) == Value(network))
  {
    hide Pow2, Value, Base, TopBits;
    own, others := false, false;
    network, prefix := NetworkOf(address, rawPrefix);
    if prefix.None? {
      return;
    }
    own := CidrMatch(network, prefix.value, address);
    if |other| == |address| {
      SameNetwork(address, other, network, prefix.value);
    }
    others := CidrMatch(network, prefix.value, other);
  }

  /** Bits above the cleared ones do not matter to clearing. */
  lemma BaseBelow(high: nat, v: nat, low: nat)
    requires low <= 32
    ensures Base(high * Pow2(32) + v, low) == high * Pow2(32) + Base(v, low)
  {
    hide Pow2, Rest, Quotient;
    Pow2Sum(32 - low, low);
    Associate(high, Pow2(32 - low), Pow2(low));
    Positive(high, Pow2(32 - low));
    Positive(high, Pow2(32));
    DivUnique(high * Pow2(32), high * Pow2(32 - low), Pow2(low), 0);
    RestOfMultiple(v, high * Pow2(32) + v, Pow2(low));
  }

  /**
   Mapped records agree: an IPv4 address reported with 96 bits more has the prefix and
   so the network it has without them, and the network of the mapped IPv6 address is
   that network behind the mapping.
   */
  lemma MappedAgree(mapping: seq<byte>, address: Address, network: Address, prefix: nat)
    requires |mapping| == 12 && |address| == |network| == 4 && prefix <= 32
    requires Value(network) == Base(Value(address), 32 - prefix)
    ensures NetworkPrefix(address, 96 + prefix) == NetworkPrefix(address, prefix) == Some(prefix)
    ensures NetworkPrefix(mapping + address, 96 + prefix) == Some(96 + prefix)
    ensures Value(mapping + network) == Base(Value(mapping + address), 128 - (96 + prefix))
  {
    hide Pow2, Value, Base;
    ValueConcat(mapping, address);
    ValueConcat(mapping, network);
    BaseBelow(Value(mapping), Value(address), 32 - prefix);
  }
}
