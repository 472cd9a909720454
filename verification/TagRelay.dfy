/**
 Client-only tag relay of ircv3.c: a tag section is cut into tokens, duplicates of
 a key are removed with an open-addressing table so that the last one wins, and
 the survivors are joined again for the recipients.
 */
module TagRelay {
  import opened Arithmetic
  import opened Text

  const TOKEN_MAX: nat := 2048
  const SLOT_COUNT: nat := 4096
  const SLOT_EMPTY: nat := 0xFFFF
  const CLIENT_TAG_DATA_MAX: nat := 4094
  const SEPARATOR: CChar := ';' as int
  const EQUALS: CChar := '=' as int
  const PLUS: CChar := '+' as int

  // ---------------------------------------------------------------- tokens

  /** Offset of the first character at or after i that is (not) a separator. */
  function Skip(s: CString, i: nat, separators: bool): (j: nat)
    requires i <= |s|
    ensures i <= j <= |s|
    ensures forall n :: i <= n < j ==> (s[n] == SEPARATOR) == separators
    ensures j < |s| ==> (s[j] == SEPARATOR) != separators
    decreases |s| - i
  {
    if i < |s| && (s[i] == SEPARATOR) == separators then Skip(s, i + 1, separators) else i
  }

  /** The non-empty pieces between separators, as strtok_r yields them. */
  function Tokens(s: CString, i: nat): seq<CString>
    requires i <= |s|
    decreases |s| - i
  {
    var b := Skip(s, i, true);
    if b == |s| then []
    else
      var e := Skip(s, b, false);
      [s[b..e]] + Tokens(s, e)
  }

  /** Length of a token's key: everything before the first equals sign. */
  function KeyLength(token: CString): (n: nat)
    ensures n <= |token|
    ensures forall k :: 0 <= k < n ==> token[k] != EQUALS
    ensures n < |token| ==> token[n] == EQUALS
  {
    if token == [] || token[0] == EQUALS then 0 else 1 + KeyLength(token[1..])
  }

  function Key(token: CString): CString { token[..KeyLength(token)] }

  predicate ClientOnly(token: CString) { token != [] && token[0] == PLUS }

  function Join(ts: seq<CString>): CString {
    if ts == [] then []
    else if |ts| == 1 then ts[0]
    else Join(ts[..|ts| - 1]) + [SEPARATOR] + ts[|ts| - 1]
  }

  // ---------------------------------------------------------------- meaning

  /** Token i is client-only and no later token has its key. */
  predicate Survives(ts: seq<CString>, i: nat)
    requires i < |ts|
  {
    ClientOnly(ts[i]) && forall j :: i < j < |ts| ==> Key(ts[j]) != Key(ts[i])
  }

  /** The surviving tokens among the first n, in order. */
  function Kept(ts: seq<CString>, n: nat): seq<CString>
    requires n <= |ts|
  {
    if n == 0 then []
    else Kept(ts, n - 1) + if Survives(ts, n - 1) then [ts[n - 1]] else []
  }

  // ---------------------------------------------------------------- sizes

  /** Characters of the tokens plus one separator each. */
  function Cost(ts: seq<CString>): nat {
    if ts == [] then 0 else Cost(ts[..|ts| - 1]) + |ts[|ts| - 1]| + 1
  }

  predicate NoEmpty(ts: seq<CString>) {
    forall n :: 0 <= n < |ts| ==> ts[n] != []
  }

  lemma {:induction false} CostCons(t: CString, ts: seq<CString>)
    ensures Cost([t] + ts) == |t| + 1 + Cost(ts)
  {
    var all := [t] + ts;
    if ts == [] {
      assert all[..0] == [] && all[|all| - 1] == t;
      assert Cost(all[..0]) == 0;
    } else {
      assert all[..|all| - 1] == [t] + ts[..|ts| - 1];
      CostCons(t, ts[..|ts| - 1]);
    }
  }

  lemma {:induction false} JoinCost(ts: seq<CString>)
    ensures |Join(ts)| == if ts == [] then 0 else Cost(ts) - 1
  {
    if |ts| == 1 {
      assert Cost(ts[..0]) == 0;
    } else if ts != [] {
      JoinCost(ts[..|ts| - 1]);
    }
  }

  /** How the token list starts: nothing but separators, or one token and the rest. */
  lemma TokensHead(s: CString, i: nat)
    requires i <= |s|
    ensures var b := Skip(s, i, true);
            var e := Skip(s, b, false);
            if b == |s| then Tokens(s, i) == []
            else b < e && Tokens(s, i) == [s[b..e]] + Tokens(s, e) && (e == |s| ==> Tokens(s, e) == [])
  {
  }

  /** Tokens never cost more than the text they were cut from. */
  lemma {:induction false} TokensCost(s: CString, i: nat)
    requires i <= |s|
    ensures Cost(Tokens(s, i)) <= |s| - i + 1
    decreases |s| - i
  {
    hide Skip, Tokens;
    var b := Skip(s, i, true);
    TokensHead(s, i);
    if b < |s| {
      var e := Skip(s, b, false);
      CostCons(s[b..e], Tokens(s, e));
      if e < |s| {
        TokensSkipOne(s, e);
        TokensCost(s, e + 1);
      }
    }
  }

  lemma {:induction false} TokensNotEmpty(s: CString, i: nat)
    requires i <= |s|
    ensures NoEmpty(Tokens(s, i))
    decreases |s| - i
  {
    var b := Skip(s, i, true);
    if b < |s| {
      TokensNotEmpty(s, Skip(s, b, false));
    }
  }

  /** A separator in front changes no token. */
  lemma TokensSkipOne(s: CString, e: nat)
    requires e < |s| && s[e] == SEPARATOR
    ensures Tokens(s, e) == Tokens(s, e + 1)
  {
    assert Skip(s, e, true) == Skip(s, e + 1, true);
  }

  lemma {:induction false} TokenCount(ts: seq<CString>)
    requires NoEmpty(ts)
    ensures 2 * |ts| <= Cost(ts)
  {
    if ts != [] {
      TokenCount(ts[..|ts| - 1]);
    }
  }

  lemma {:induction false} KeptCost(ts: seq<CString>, n: nat)
    requires n <= |ts|
    ensures Cost(Kept(ts, n)) <= Cost(ts[..n])
  {
    if n > 0 {
      KeptCost(ts, n - 1);
      assert ts[..n][..n - 1] == ts[..n - 1];
      var kept := Kept(ts, n);
      if Survives(ts, n - 1) {
        assert kept[..|kept| - 1] == Kept(ts, n - 1);
      } else {
        assert kept == Kept(ts, n - 1);
      }
    }
  }

  lemma {:induction false} CostGrows(ts: seq<CString>, n: nat)
    requires n <= |ts|
    ensures Cost(ts[..n]) <= Cost(ts)
    decreases |ts|
  {
    if n == |ts| {
      assert ts[..n] == ts;
    } else {
      CostGrows(ts[..|ts| - 1], n);
      assert ts[..|ts| - 1][..n] == ts[..n];
    }
  }

  /**
   For a section within the input limit the token table is never full and the
   relayed text always fits, however far the output loop has come.
   */
  lemma LimitsNeverHit(tags: CString, n: nat)
    requires |tags| <= CLIENT_TAG_DATA_MAX && n <= |Tokens(tags, 0)|
    ensures |Tokens(tags, 0)| < TOKEN_MAX
    ensures |Join(Kept(Tokens(tags, 0), n))| <= CLIENT_TAG_DATA_MAX
    ensures NoEmpty(Tokens(tags, 0))
  {
    var ts := Tokens(tags, 0);
    TokensCost(tags, 0);
    TokensNotEmpty(tags, 0);
    TokenCount(ts);
    KeptCost(ts, n);
    CostGrows(ts, n);
    JoinCost(Kept(ts, n));
  }

  // ---------------------------------------------------------------- the slot table

  /** One round of tag_key_hash, in 64-bit size_t arithmetic. */
  function Mix(hash: bv64, c: CChar): bv64 {
    (hash ^ (c as bv64)) * 16777619
  }

  function KeyHash(key: CString): bv64 {
    if key == [] then 2166136261 else Mix(KeyHash(key[..|key| - 1]), key[|key| - 1])
  }

  function SlotOf(hash: bv64): (h: nat)
    ensures h < SLOT_COUNT
  {
    (hash & 0xFFF) as bv12 as nat
  }

  function HomeSlot(key: CString): (h: nat)
    ensures h < SLOT_COUNT
  {
    SlotOf(KeyHash(key))
  }

  /** Slots hold token numbers. */
  ghost predicate Sane(slots: seq<nat>, keys: seq<CString>) {
    |slots| == SLOT_COUNT && forall s :: 0 <= s < SLOT_COUNT && slots[s] != SLOT_EMPTY ==> slots[s] < |keys|
  }

  ghost predicate Holds(slots: seq<nat>, keys: seq<CString>, key: CString, s: nat)
    requires Sane(slots, keys)
  {
    s < SLOT_COUNT && slots[s] != SLOT_EMPTY && keys[slots[s]] == key
  }

  ghost predicate Stored(slots: seq<nat>, keys: seq<CString>, key: CString)
    requires Sane(slots, keys)
  {
    exists s: nat :: Holds(slots, keys, key, s)
  }

  /** Every slot on the way from h to s is taken. */
  ghost predicate PathTaken(slots: seq<nat>, h: nat, s: nat)
    requires |slots| == SLOT_COUNT && h < SLOT_COUNT && s < SLOT_COUNT
  {
    forall e :: 0 <= e < Distance(h, s, SLOT_COUNT) ==> slots[Onward(h, e, SLOT_COUNT)] != SLOT_EMPTY
  }

  /** Every slot on the way from h to s is taken by another key. */
  ghost predicate PathOthers(slots: seq<nat>, keys: seq<CString>, key: CString, h: nat, s: nat)
    requires Sane(slots, keys) && h < SLOT_COUNT && s < SLOT_COUNT
  {
    forall e :: 0 <= e < Distance(h, s, SLOT_COUNT) ==>
      slots[Onward(h, e, SLOT_COUNT)] != SLOT_EMPTY && keys[slots[Onward(h, e, SLOT_COUNT)]] != key
  }

  /**
   What linear probing for a key arrives at: the first slot from its home that is
   free or holds the key.
   */
  ghost predicate Probed(slots: seq<nat>, keys: seq<CString>, key: CString, slot: nat)
    requires Sane(slots, keys)
  {
    && slot < SLOT_COUNT
    && (slots[slot] == SLOT_EMPTY || keys[slots[slot]] == key)
    && PathOthers(slots, keys, key, HomeSlot(key), slot)
  }

  /** How many slots are taken. */
  ghost function Used(slots: seq<nat>): nat {
    if slots == [] then 0
    else Used(slots[..|slots| - 1]) + if slots[|slots| - 1] != SLOT_EMPTY then 1 else 0
  }

  /** The value stored for a key is the number of its last token. */
  ghost predicate LastOf(keys: seq<CString>, i: nat) {
    i < |keys| && forall j :: i < j < |keys| ==> keys[j] != keys[i]
  }

  ghost predicate SlotGood(slots: seq<nat>, keys: seq<CString>, s: nat)
    requires Sane(slots, keys) && s < SLOT_COUNT && slots[s] != SLOT_EMPTY
  {
    var key := keys[slots[s]];
    ClientOnly(key) && LastOf(keys, slots[s]) && PathTaken(slots, HomeSlot(key), s)
  }

  ghost predicate NoSharing(slots: seq<nat>) {
    forall s, t :: 0 <= s < t < |slots| && slots[s] != SLOT_EMPTY ==> slots[s] != slots[t]
  }

  /**
   The table after the given keys: each stored key sits where probing finds it and
   carries its last token number, and every client-only key is stored.
   */
  ghost predicate Table(slots: seq<nat>, keys: seq<CString>) {
    && Sane(slots, keys) && NoSharing(slots) && Used(slots) <= |keys|
    && (forall s :: 0 <= s < SLOT_COUNT && slots[s] != SLOT_EMPTY ==> SlotGood(slots, keys, s))
    && (forall i :: 0 <= i < |keys| && ClientOnly(keys[i]) ==> Stored(slots, keys, keys[i]))
  }

  lemma {:induction false} AllUsed(slots: seq<nat>)
    requires forall s :: 0 <= s < |slots| ==> slots[s] != SLOT_EMPTY
    ensures Used(slots) == |slots|
  {
    if slots != [] {
      AllUsed(slots[..|slots| - 1]);
    }
  }

  lemma {:induction false} NoneUsed(slots: seq<nat>)
    requires forall s :: 0 <= s < |slots| ==> slots[s] == SLOT_EMPTY
    ensures Used(slots) == 0
  {
    if slots != [] {
      NoneUsed(slots[..|slots| - 1]);
    }
  }

  lemma {:induction false} UsedUpdate(slots: seq<nat>, s: nat, v: nat)
    requires s < |slots|
    ensures Used(slots[s := v]) <= Used(slots) + 1
  {
    var front := slots[..|slots| - 1];
    if s == |slots| - 1 {
      assert slots[s := v][..|slots| - 1] == front;
    } else {
      UsedUpdate(front, s, v);
      assert slots[s := v][..|slots| - 1] == front[s := v];
    }
  }

  /** As long as fewer keys than slots were entered, some slot is free. */
  lemma FreeSlot(slots: seq<nat>, keys: seq<CString>) returns (f: nat)
    requires Table(slots, keys) && |keys| < SLOT_COUNT
    ensures f < SLOT_COUNT && slots[f] == SLOT_EMPTY
  {
    if forall s: nat :: s < SLOT_COUNT ==> slots[s] != SLOT_EMPTY {
      AllUsed(slots);
    }
    f :| f < SLOT_COUNT && slots[f] == SLOT_EMPTY;
  }

  lemma TableEmpty(slots: seq<nat>)
    requires |slots| == SLOT_COUNT && forall s :: 0 <= s < |slots| ==> slots[s] == SLOT_EMPTY
    ensures Table(slots, [])
  {
    NoneUsed(slots);
  }

  /** No key is stored twice. */
  lemma OneSlotPerKey(slots: seq<nat>, keys: seq<CString>, key: CString, s: nat, t: nat)
    requires Table(slots, keys) && Holds(slots, keys, key, s) && Holds(slots, keys, key, t)
    ensures s == t
  {
    assert SlotGood(slots, keys, s) && SlotGood(slots, keys, t);
  }

  /** If the table holds the key at all, probing stops on the slot that holds it. */
  lemma ProbeFinds(slots: seq<nat>, keys: seq<CString>, key: CString, slot: nat, s: nat)
    requires Table(slots, keys) && Probed(slots, keys, key, slot) && Holds(slots, keys, key, s)
    ensures s == slot
  {
    hide HomeSlot, SlotGood, Stored, NoSharing, Used;
    var h := HomeSlot(key);
    var d, e := Distance(h, slot, SLOT_COUNT), Distance(h, s, SLOT_COUNT);
    DistanceInverse(h, s, e, SLOT_COUNT);
    DistanceInverse(h, slot, d, SLOT_COUNT);
    TakenUpTo(slots, keys, key, s);
    if d < e {
      assert slots[Onward(h, d, SLOT_COUNT)] != SLOT_EMPTY;
      OneSlotPerKey(slots, keys, key, s, slot);
    }
  }

  lemma TakenUpTo(slots: seq<nat>, keys: seq<CString>, key: CString, s: nat)
    requires Table(slots, keys) && Holds(slots, keys, key, s)
    ensures PathTaken(slots, HomeSlot(key), s)
  {
    assert SlotGood(slots, keys, s);
  }

  /** A tag of another kind leaves the table as it is. */
  lemma TableSkip(slots: seq<nat>, keys: seq<CString>, key: CString)
    requires Table(slots, keys) && !ClientOnly(key)
    ensures Table(slots, keys + [key])
  {
    hide HomeSlot, PathTaken, Used;
    var keys' := keys + [key];
    forall s | 0 <= s < SLOT_COUNT && slots[s] != SLOT_EMPTY
      ensures SlotGood(slots, keys', s)
    {
      assert SlotGood(slots, keys, s);
    }
    forall i | 0 <= i < |keys'| && ClientOnly(keys'[i])
      ensures Stored(slots, keys', keys'[i])
    {
      var s: nat :| Holds(slots, keys, keys[i], s);
      assert Holds(slots, keys', keys'[i], s);
    }
  }

  lemma StoreKeepsSlot(slots: seq<nat>, keys: seq<CString>, key: CString, slot: nat, s: nat)
    requires Table(slots, keys) && ClientOnly(key) && Probed(slots, keys, key, slot)
    requires |keys| < SLOT_EMPTY && Sane(slots[slot := |keys|], keys + [key])
    requires s < SLOT_COUNT && s != slot && slots[s] != SLOT_EMPTY
    ensures SlotGood(slots[slot := |keys|], keys + [key], s)
  {
    hide HomeSlot, Probed, Used;
    if Holds(slots, keys, key, s) {
      ProbeFinds(slots, keys, key, slot, s);
    }
    assert SlotGood(slots, keys, s);
  }

  lemma StoreFillsSlot(slots: seq<nat>, keys: seq<CString>, key: CString, slot: nat)
    requires Sane(slots, keys) && ClientOnly(key) && Probed(slots, keys, key, slot)
    requires |keys| < SLOT_EMPTY && Sane(slots[slot := |keys|], keys + [key])
    ensures SlotGood(slots[slot := |keys|], keys + [key], slot)
  {
    hide HomeSlot;
  }

  lemma StoreKeepsKey(slots: seq<nat>, keys: seq<CString>, key: CString, slot: nat, i: nat)
    requires Table(slots, keys) && Probed(slots, keys, key, slot)
    requires |keys| < SLOT_EMPTY && Sane(slots[slot := |keys|], keys + [key])
    requires i < |keys| && ClientOnly(keys[i])
    ensures Stored(slots[slot := |keys|], keys + [key], keys[i])
  {
    hide HomeSlot, PathOthers;
    var s: nat :| Holds(slots, keys, keys[i], s);
    assert Holds(slots[slot := |keys|], keys + [key], keys[i], s);
  }

  /** Storing the newest token number where probing stopped keeps the table. */
  lemma TableStore(slots: seq<nat>, keys: seq<CString>, key: CString, slot: nat)
    requires Table(slots, keys) && ClientOnly(key) && Probed(slots, keys, key, slot)
    requires |keys| < SLOT_EMPTY
    ensures Table(slots[slot := |keys|], keys + [key])
  {
    hide HomeSlot, SlotGood, Stored, PathOthers, Used;
    var slots', keys' := slots[slot := |keys|], keys + [key];
    UsedUpdate(slots, slot, |keys|);
    assert Sane(slots', keys');
    forall s | 0 <= s < SLOT_COUNT && slots'[s] != SLOT_EMPTY
      ensures SlotGood(slots', keys', s)
    {
      if s == slot {
        StoreFillsSlot(slots, keys, key, slot);
      } else {
        StoreKeepsSlot(slots, keys, key, slot, s);
      }
    }
    forall i | 0 <= i < |keys'| && ClientOnly(keys'[i])
      ensures Stored(slots', keys', keys'[i])
    {
      if i == |keys| {
        StoredNow(slots', keys', slot);
      } else {
        StoreKeepsKey(slots, keys, key, slot, i);
      }
    }
  }

  lemma StoredNow(slots: seq<nat>, keys: seq<CString>, slot: nat)
    requires Sane(slots, keys) && slot < SLOT_COUNT && slots[slot] != SLOT_EMPTY
    ensures Stored(slots, keys, keys[slots[slot]])
  {
    assert Holds(slots, keys, keys[slots[slot]], slot);
  }

  /** Looking a stored key up yields the number of its last token. */
  lemma TableLookup(slots: seq<nat>, keys: seq<CString>, i: nat, slot: nat)
    requires Table(slots, keys) && i < |keys| && ClientOnly(keys[i]) && Probed(slots, keys, keys[i], slot)
    ensures slots[slot] == i <==> LastOf(keys, i)
  {
    hide HomeSlot, PathOthers, PathTaken, Used;
    var s: nat :| Holds(slots, keys, keys[i], s);
    ProbeFinds(slots, keys, keys[i], slot, s);
    assert SlotGood(slots, keys, slot);
  }

  // ---------------------------------------------------------------- the code

  method TagKeyHash(token: CString, length: nat) returns (hash: bv64)
    requires length <= |token|
    ensures hash == KeyHash(token[..length])
  {
    hide Mix;
    hash := 2166136261;
    for index := 0 to length
      invariant hash == KeyHash(token[..index])
    {
      assert token[..index + 1][..index] == token[..index];
      hash := Mix(hash, token[index]);
    }
  }

  ghost function Keys(tokens: seq<CString>): (keys: seq<CString>)
    ensures |keys| == |tokens| && forall i :: 0 <= i < |tokens| ==> keys[i] == Key(tokens[i])
  {
    seq(|tokens|, i requires 0 <= i < |tokens| => Key(tokens[i]))
  }

  /** The key_lengths array holds the key length of every token. */
  ghost predicate Measured(tokens: seq<CString>, keyLengths: seq<nat>) {
    |keyLengths| == |tokens| && forall i :: 0 <= i < |tokens| ==> keyLengths[i] == KeyLength(tokens[i])
  }

  /**
   tag_slot_for: linear probing from the key's home slot. It terminates because the
   table is never full.
   */
  method TagSlotFor(tokens: seq<CString>, keyLengths: seq<nat>, slots: array<nat>, index: nat, ghost entered: nat)
    returns (slot: nat)
    requires index < |tokens| && entered <= |tokens|
    requires Measured(tokens, keyLengths)
    requires entered < SLOT_COUNT && Table(slots[..], Keys(tokens[..entered]))
    ensures Probed(slots[..], Keys(tokens[..entered]), Key(tokens[index]), slot)
  {
    hide SlotOf, KeyHash, SlotGood, Stored, NoSharing, Used;
    ghost var keys, key, taken := Keys(tokens[..entered]), Key(tokens[index]), slots[..];
    ghost var h := HomeSlot(key);
    ghost var f := FreeSlot(taken, keys);
    var hash := TagKeyHash(tokens[index], keyLengths[index]);
    slot := SlotOf(hash);
    while slots[slot] != SLOT_EMPTY
      invariant slot < SLOT_COUNT
      invariant Distance(h, slot, SLOT_COUNT) <= Distance(h, f, SLOT_COUNT)
      invariant PathOthers(taken, keys, key, h, slot)
      decreases Distance(h, f, SLOT_COUNT) - Distance(h, slot, SLOT_COUNT)
    {
      var existing := slots[slot];
      assert taken[slot] == existing < entered;
      assert tokens[..entered][existing] == tokens[existing];
      if keyLengths[existing] == keyLengths[index]
         && tokens[existing][..keyLengths[index]] == tokens[index][..keyLengths[index]] {
        break;
      }
      ProbeNext(taken, keys, key, h, slot, f);
      slot := (slot + 1) % SLOT_COUNT;
    }
  }

  lemma ProbeNext(slots: seq<nat>, keys: seq<CString>, key: CString, h: nat, slot: nat, f: nat)
    requires Sane(slots, keys) && h < SLOT_COUNT && slot < SLOT_COUNT && f < SLOT_COUNT
    requires slots[f] == SLOT_EMPTY && Distance(h, slot, SLOT_COUNT) <= Distance(h, f, SLOT_COUNT)
    requires PathOthers(slots, keys, key, h, slot)
    requires slots[slot] != SLOT_EMPTY && keys[slots[slot]] != key
    ensures PathOthers(slots, keys, key, h, (slot + 1) % SLOT_COUNT)
    ensures Distance(h, (slot + 1) % SLOT_COUNT, SLOT_COUNT) ==
              Distance(h, slot, SLOT_COUNT) + 1 <= Distance(h, f, SLOT_COUNT)
  {
    hide Onward, Distance;
    var next := (slot + 1) % SLOT_COUNT;
    DistanceInverse(h, slot, Distance(h, slot, SLOT_COUNT), SLOT_COUNT);
    DistanceInverse(h, f, Distance(h, f, SLOT_COUNT), SLOT_COUNT);
    DistanceNext(h, slot, f);
    forall e | 0 <= e < Distance(h, next, SLOT_COUNT)
      ensures slots[Onward(h, e, SLOT_COUNT)] != SLOT_EMPTY && keys[slots[Onward(h, e, SLOT_COUNT)]] != key
    {
      if e == Distance(h, slot, SLOT_COUNT) {
        assert Onward(h, e, SLOT_COUNT) == slot;
      }
    }
  }

  lemma DistanceNext(h: nat, slot: nat, f: nat)
    requires h < SLOT_COUNT && slot < SLOT_COUNT && f < SLOT_COUNT
    requires Distance(h, slot, SLOT_COUNT) < Distance(h, f, SLOT_COUNT)
    ensures Distance(h, (slot + 1) % SLOT_COUNT, SLOT_COUNT) == Distance(h, slot, SLOT_COUNT) + 1
  {
  }

  lemma ClientOnlyKey(token: CString)
    ensures ClientOnly(Key(token)) <==> ClientOnly(token)
  {
  }

  lemma SurvivesIsLast(tokens: seq<CString>, i: nat)
    requires i < |tokens|
    ensures Survives(tokens, i) <==> ClientOnly(tokens[i]) && LastOf(Keys(tokens), i)
  {
  }

  lemma KeysAppend(tokens: seq<CString>, token: CString)
    ensures Keys(tokens + [token]) == Keys(tokens) + [Key(token)]
  {
  }

  // ---------------------------------------------------------------- labels

  const BACKSLASH: CChar := '\\' as int
  const LABEL_MAX: nat := 64
  const LABEL_ENCODED_MAX: nat := 128

  /** "label" */
  const LABEL_KEY: CString := ['l' as int, 'a' as int, 'b' as int, 'e' as int, 'l' as int]

  /** IRCv3 tag value escapes: a backslash stands for one character with its successor, or for nothing at the end. */
  function DecodeValue(v: CString): CString {
    if v == [] then []
    else if v[0] != BACKSLASH then [v[0]] + DecodeValue(v[1..])
    else if |v| == 1 then []
    else [Unescaped(v[1])] + DecodeValue(v[2..])
  }

  function Unescaped(c: CChar): CChar {
    if c == ':' as int then ';' as int
    else if c == 's' as int then ' ' as int
    else if c == 'r' as int then '\r' as int
    else if c == 'n' as int then '\n' as int
    else c
  }

  /** decoded_tag_value_length: counts without decoding. */
  method DecodedValueLength(v: CString) returns (length: nat)
    ensures length == |DecodeValue(v)|
  {
    length := 0;
    var cursor := 0;
    while cursor < |v|
      invariant 0 <= cursor <= |v|
      invariant length + |DecodeValue(v[cursor..])| == |DecodeValue(v)|
      decreases |v| - cursor
    {
      assert v[cursor..][1..] == v[cursor + 1..];
      if v[cursor] == BACKSLASH {
        if cursor + 1 == |v| {
          break;
        }
        assert v[cursor..][2..] == v[cursor + 2..];
        cursor := cursor + 1;
      }
      length := length + 1;
      cursor := cursor + 1;
    }
  }

  predicate IsLabel(token: CString) { Key(token) == LABEL_KEY }

  /** The value of a label tag if it is present, not empty and within both limits. */
  function LabelValue(token: CString): CString {
    var n := KeyLength(token);
    if n == |token| then []
    else
      var value := token[n + 1..];
      if |value| <= LABEL_ENCODED_MAX && |DecodeValue(value)| <= LABEL_MAX then value else []
  }

  /** The last label tag decides, even when it is an invalid one. */
  function LabelOf(ts: seq<CString>): CString {
    if ts == [] then []
    else if IsLabel(ts[|ts| - 1]) then LabelValue(ts[|ts| - 1])
    else LabelOf(ts[..|ts| - 1])
  }

  method ReadLabel(token: CString, keyLength: nat, echo: CString) returns (r: CString)
    requires keyLength == KeyLength(token)
    ensures r == if IsLabel(token) then LabelValue(token) else echo
  {
    r := echo;
    if keyLength == 5 && token[..5] == LABEL_KEY {
      r := [];
      if keyLength < |token| && keyLength + 1 < |token| {
        var value := token[keyLength + 1..];
        if |value| <= LABEL_ENCODED_MAX {
          var decoded := DecodedValueLength(value);
          if decoded <= LABEL_MAX {
            r := value;
          }
        }
      }
    }
  }

  /** A label tag is the key, an equals sign and a value. */
  function LabelTag(v: CString): CString { LABEL_KEY + [EQUALS] + v }

  lemma LabelTagRead(token: CString)
    ensures IsLabel(token) <==> token == LABEL_KEY || exists v :: token == LabelTag(v)
    ensures forall v :: token == LabelTag(v) ==> IsLabel(token) && KeyLength(token) == 5 && token[6..] == v
    ensures IsLabel(token) && token != LABEL_KEY ==> |token| >= 6 && token == LabelTag(token[6..])
  {
    hide KeyLength, LabelTag, IsLabel;
    forall v | token == LabelTag(v)
      ensures IsLabel(token) && KeyLength(token) == 5 && |token| >= 6 && token[6..] == v
    {
      LabelTagIs(v);
    }
    LabelIsTag(token);
    BareLabel();
  }

  lemma LabelTagIs(v: CString)
    ensures IsLabel(LabelTag(v)) && KeyLength(LabelTag(v)) == 5 && |LabelTag(v)| >= 6 && LabelTag(v)[6..] == v
  {
    hide KeyLength;
    var token := LabelTag(v);
    assert forall k :: 0 <= k < 5 ==> token[k] == LABEL_KEY[k];
    assert token[5] == EQUALS;
    assert token[..5] == LABEL_KEY;
  }

  lemma LabelIsTag(token: CString)
    ensures IsLabel(token) && token != LABEL_KEY ==> |token| >= 6 && token == LabelTag(token[6..])
  {
    hide KeyLength;
  }

  lemma BareLabel()
    ensures IsLabel(LABEL_KEY)
  {
    hide KeyLength;
    assert KeyLength(LABEL_KEY) == 5;
    assert LABEL_KEY[..5] == LABEL_KEY;
  }

  /**
   The label of a command, said without reading it: a value is its label exactly when
   it is that of the last label tag and is at most 128 bytes and 64 decoded ones.
   */
  lemma {:induction false} LabelExactly(ts: seq<CString>, v: CString)
    requires v != []
    ensures LabelOf(ts) == v <==>
              && |v| <= 128 && |DecodeValue(v)| <= 64
              && exists i :: 0 <= i < |ts| && ts[i] == LabelTag(v) &&
                  forall j :: i < j < |ts| ==> Key(ts[j]) != LABEL_KEY
  {
    if ts != [] {
      hide LabelTag, KeyLength, DecodeValue;
      var front, last := ts[..|ts| - 1], ts[|ts| - 1];
      LabelExactly(front, v);
      LabelTagRead(last);
      if IsLabel(last) {
        LabelValueRead(last, v);
        assert ts[|ts| - 1] == last;
      } else {
        assert forall i :: 0 <= i < |front| ==> front[i] == ts[i];
      }
    }
  }

  lemma LabelValueRead(token: CString, v: CString)
    requires IsLabel(token) && v != []
    ensures LabelValue(token) == v <==> token == LabelTag(v) && |v| <= 128 && |DecodeValue(v)| <= 64
  {
    hide KeyLength, DecodeValue;
    LabelTagRead(token);
    if token == LabelTag(v) {
      assert token[6..] == v;
    }
  }

  /** The escaping of IRCv3 message tags. */
  function EscapeValue(t: CString): CString {
    if t == [] then [] else Escaped(t[0]) + EscapeValue(t[1..])
  }

  function Escaped(c: CChar): CString {
    if c == ';' as int then [BACKSLASH, ':' as int]
    else if c == ' ' as int then [BACKSLASH, 's' as int]
    else if c == '\r' as int then [BACKSLASH, 'r' as int]
    else if c == '\n' as int then [BACKSLASH, 'n' as int]
    else if c == BACKSLASH then [BACKSLASH, BACKSLASH]
    else [c]
  }

  /** Decoding undoes escaping, and escaping at most doubles, so 64 characters always fit the encoded limit. */
  lemma {:induction false} EscapeDecode(t: CString)
    ensures DecodeValue(EscapeValue(t)) == t && |t| <= |EscapeValue(t)| <= 2 * |t|
  {
    if t != [] {
      hide DecodeValue;
      EscapeDecode(t[1..]);
      DecodeEscaped(t[0], EscapeValue(t[1..]));
    } else {
      assert DecodeValue([]) == [];
    }
  }

  lemma DecodeEscaped(c: CChar, rest: CString)
    ensures DecodeValue(Escaped(c) + rest) == [c] + DecodeValue(rest) && 1 <= |Escaped(c)| <= 2
  {
    var all := Escaped(c) + rest;
    assert all[|Escaped(c)|..] == rest;
  }

  /** Every text of 1 to 64 characters can be a label: sent escaped in the last label tag, it is the label. */
  lemma LabelsOfText(t: CString, before: seq<CString>)
    requires 0 < |t| <= 64
    ensures LabelOf(before + [LabelTag(EscapeValue(t))]) == EscapeValue(t)
  {
    hide EscapeValue, LabelTag, LabelOf;
    EscapeDecode(t);
    var ts := before + [LabelTag(EscapeValue(t))];
    assert ts[|before|] == LabelTag(EscapeValue(t));
    LabelExactly(ts, EscapeValue(t));
  }

  // ---------------------------------------------------------------- one command

  /** Enter the newest token into the slot table when it is a client-only one. */
  method EnterToken(tokens: seq<CString>, keyLengths: seq<nat>, slots: array<nat>)
    requires 0 < |tokens| <= TOKEN_MAX && tokens[|tokens| - 1] != []
    requires Measured(tokens, keyLengths)
    requires Table(slots[..], Keys(tokens[..|tokens| - 1]))
    modifies slots
    ensures Table(slots[..], Keys(tokens))
  {
    hide SlotGood, Stored, NoSharing, Used, HomeSlot, Keys, PathOthers;
    var last: nat := |tokens| - 1;
    var token := tokens[last];
    ghost var before, taken := tokens[..last], slots[..];
    assert tokens == before + [token];
    KeysAppend(before, token);
    ClientOnlyKey(token);
    if token[0] == PLUS {
      var slot := TagSlotFor(tokens, keyLengths, slots, last, last);
      TableStore(taken, Keys(before), Key(token), slot);
      slots[slot] := last % 0x1_0000;
      assert slots[..] == taken[slot := last];
    } else {
      TableSkip(taken, Keys(before), Key(token));
    }
  }

  /** The body of the first loop: record a token, note a label, enter a client-only key. */
  method AddToken(tokens: seq<CString>, keyLengths: seq<nat>, slots: array<nat>,
                  was: CString, token: CString, messageTags: bool)
    returns (tokens': seq<CString>, keyLengths': seq<nat>, echo: CString)
    requires |tokens| < TOKEN_MAX && Measured(tokens, keyLengths)
    requires token != [] && |token| <= CLIENT_TAG_DATA_MAX
    requires was == LabelOf(tokens)
    requires messageTags ==> Table(slots[..], Keys(tokens))
    modifies slots
    ensures tokens' == tokens + [token] && Measured(tokens', keyLengths')
    ensures echo == LabelOf(tokens')
    ensures messageTags ==> Table(slots[..], Keys(tokens'))
  {
    hide Table, Keys, LabelValue, IsLabel;
    var keyLength := KeyLength(token);
    echo := ReadLabel(token, keyLength, was);
    tokens', keyLengths' := tokens + [token], keyLengths + [keyLength % 0x1_0000];
    assert tokens'[..|tokens|] == tokens;
    if messageTags {
      EnterToken(tokens', keyLengths', slots);
    }
  }

  /** The first loop of ircv3_begin_command: cut the section into tokens. */
  method CollectTokens(tags: CString, messageTags: bool)
    returns (tokens: seq<CString>, keyLengths: seq<nat>, slots: array<nat>, echo: CString)
    requires |tags| <= CLIENT_TAG_DATA_MAX
    ensures tokens == Tokens(tags, 0) && Measured(tokens, keyLengths)
    ensures messageTags ==> Table(slots[..], Keys(tokens))
    ensures echo == LabelOf(tokens)
  {
    hide Table, Keys, LabelOf, Measured, Tokens, Skip;
    tokens, keyLengths, echo := [], [], [];
    slots := new nat[SLOT_COUNT](_ => SLOT_EMPTY);
    NothingCollected(slots[..]);
    LimitsNeverHit(tags, 0);
    FirstToken(tags);
    var pos := Skip(tags, 0, true);
    while pos < |tags| && |tokens| < TOKEN_MAX
      invariant pos <= |tags| && Skip(tags, pos, true) == pos
      invariant Tokens(tags, 0) == tokens + Tokens(tags, pos)
      invariant Measured(tokens, keyLengths) && echo == LabelOf(tokens)
      invariant messageTags ==> Table(slots[..], Keys(tokens))
      decreases |tags| - pos
    {
      var end := Skip(tags, pos, false);
      NextToken(tags, pos);
      Regroup(tokens, tags[pos..end], Tokens(tags, Skip(tags, end, true)));
      tokens, keyLengths, echo := AddToken(tokens, keyLengths, slots, echo, tags[pos..end], messageTags);
      pos := Skip(tags, end, true);
    }
    NoTokens(tags);
    assert tokens + [] == tokens;
  }

  lemma NothingCollected(slots: seq<nat>)
    requires |slots| == SLOT_COUNT && forall s :: 0 <= s < |slots| ==> slots[s] == SLOT_EMPTY
    ensures Table(slots, Keys([])) && LabelOf([]) == [] && Measured([], [])
  {
    TableEmpty(slots);
    assert Keys([]) == [];
  }

  lemma Regroup(a: seq<CString>, b: CString, c: seq<CString>)
    ensures a + ([b] + c) == (a + [b]) + c && (a + [b])[..|a|] == a
  {
  }

  lemma NoTokens(s: CString)
    ensures Tokens(s, |s|) == []
  {
  }

  lemma FirstToken(s: CString)
    ensures Tokens(s, 0) == Tokens(s, Skip(s, 0, true))
    ensures Skip(s, Skip(s, 0, true), true) == Skip(s, 0, true)
  {
  }

  /** strtok_r cuts one token and continues behind the separators. */
  lemma NextToken(s: CString, pos: nat)
    requires pos < |s| && Skip(s, pos, true) == pos
    ensures var end := Skip(s, pos, false);
            var next := Skip(s, end, true);
            && pos < end <= next && Skip(s, next, true) == next
            && Tokens(s, pos) == [s[pos..end]] + Tokens(s, next)
  {
    var end := Skip(s, pos, false);
    assert Tokens(s, end) == Tokens(s, Skip(s, end, true));
  }

  /** The second loop: join the tokens whose slot still carries their own number. */
  method RelayTokens(tokens: seq<CString>, keyLengths: seq<nat>, slots: array<nat>) returns (out: CString)
    requires |tokens| < TOKEN_MAX && NoEmpty(tokens)
    requires Measured(tokens, keyLengths)
    requires Table(slots[..], Keys(tokens))
    requires forall n :: 0 <= n <= |tokens| ==> |Join(Kept(tokens, n))| <= CLIENT_TAG_DATA_MAX
    ensures out == Join(Kept(tokens, |tokens|))
  {
    hide Table, Keys, Survives, KeyLength;
    out := [];
    for index := 0 to |tokens|
      invariant out == Join(Kept(tokens, index))
      invariant out == [] <==> Kept(tokens, index) == []
    {
      var keep := KeepToken(tokens, keyLengths, slots, index);
      KeptNext(tokens, index);
      if keep {
        var needed := |tokens[index]| + if out != [] then 1 else 0;
        if needed <= CLIENT_TAG_DATA_MAX - |out| {
          out := if out != [] then out + [SEPARATOR] + tokens[index] else tokens[index];
        }
      }
    }
  }

  /** Whether the token at index is relayed: client-only, and the slot of its key names it. */
  method KeepToken(tokens: seq<CString>, keyLengths: seq<nat>, slots: array<nat>, index: nat) returns (keep: bool)
    requires |tokens| < TOKEN_MAX && index < |tokens| && tokens[index] != []
    requires Measured(tokens, keyLengths)
    requires Table(slots[..], Keys(tokens))
    ensures keep <==> Survives(tokens, index)
  {
    hide SlotGood, Stored, NoSharing, Used, HomeSlot, PathOthers, Keys, LastOf;
    SurvivesIsLast(tokens, index);
    ClientOnlyKey(tokens[index]);
    if tokens[index][0] != PLUS {
      return false;
    }
    assert tokens[..|tokens|] == tokens;
    var slot := TagSlotFor(tokens, keyLengths, slots, index, |tokens|);
    TableLookup(slots[..], Keys(tokens), index, slot);
    keep := slots[slot] == index;
  }

  lemma KeptNext(tokens: seq<CString>, n: nat)
    requires n < |tokens|
    ensures !Survives(tokens, n) ==> Kept(tokens, n + 1) == Kept(tokens, n)
    ensures Survives(tokens, n) ==>
              && Kept(tokens, n + 1) != []
              && Join(Kept(tokens, n + 1)) == if Kept(tokens, n) == [] then tokens[n]
                  else Join(Kept(tokens, n)) + [SEPARATOR] + tokens[n]
  {
    var kept := Kept(tokens, n + 1);
    if Survives(tokens, n) {
      assert kept[..|kept| - 1] == Kept(tokens, n);
    }
  }

  /**
   ircv3_begin_command: for every tag section the input layer lets through, the
   relayed text is the join of the client-only tokens that no later token of the
   same key replaces, and the label is the last label tag's. Neither the token cap
   nor the output size ever drops anything.
   */
  method BeginCommand(tags: CString, messageTags: bool) returns (clientTags: CString, echo: CString)
    requires |tags| <= CLIENT_TAG_DATA_MAX
    ensures clientTags == if messageTags then Join(Kept(Tokens(tags, 0), |Tokens(tags, 0)|)) else []
    ensures echo == LabelOf(Tokens(tags, 0))
  {
    if |tags| == 0 {
      return [], [];
    }
    var tokens, keyLengths, slots;
    tokens, keyLengths, slots, echo := CollectTokens(tags, messageTags);
    clientTags := [];
    if messageTags {
      forall n | 0 <= n <= |tokens| ensures |Join(Kept(tokens, n))| <= CLIENT_TAG_DATA_MAX {
        LimitsNeverHit(tags, n);
      }
      LimitsNeverHit(tags, 0);
      clientTags := RelayTokens(tokens, keyLengths, slots);
    }
  }

  // ---------------------------------------------------------------- what a recipient sees

  predicate NoSeparators(ts: seq<CString>) {
    forall n :: 0 <= n < |ts| ==> SEPARATOR !in ts[n]
  }

  lemma {:induction false} TokensNoSeparators(s: CString, i: nat)
    requires i <= |s|
    ensures NoSeparators(Tokens(s, i))
    decreases |s| - i
  {
    var b := Skip(s, i, true);
    if b < |s| {
      var e := Skip(s, b, false);
      TokensNoSeparators(s, e);
      assert SEPARATOR !in s[b..e];
    }
  }

  /** Every kept token comes from the input and is the last of its key there. */
  lemma {:induction false} KeptFrom(ts: seq<CString>, n: nat, t: CString)
    requires n <= |ts| && t in Kept(ts, n)
    ensures exists i :: 0 <= i < n && ts[i] == t && Survives(ts, i)
  {
    if t !in Kept(ts, n - 1) {
      assert ts[n - 1] == t && Survives(ts, n - 1);
    } else {
      KeptFrom(ts, n - 1, t);
    }
  }

  lemma {:induction false} KeptContains(ts: seq<CString>, n: nat, i: nat)
    requires i < n <= |ts| && Survives(ts, i)
    ensures ts[i] in Kept(ts, n)
    decreases n
  {
    if i < n - 1 {
      KeptContains(ts, n - 1, i);
    }
  }

  /** Each client-only key of the input is relayed exactly once, with its last token. */
  lemma KeptIsLastPerKey(ts: seq<CString>, t: CString)
    ensures t in Kept(ts, |ts|) <==>
            exists i :: 0 <= i < |ts| && ts[i] == t && ClientOnly(t) && forall j :: i < j < |ts| ==>
                Key(ts[j]) != Key(t)
  {
    if t in Kept(ts, |ts|) {
      KeptFrom(ts, |ts|, t);
    }
    if i :| 0 <= i < |ts| && ts[i] == t && ClientOnly(t) && forall j :: i < j < |ts| ==> Key(ts[j]) != Key(t) {
      assert Survives(ts, i);
      KeptContains(ts, |ts|, i);
    }
  }

  /** No two relayed tokens share a key. */
  lemma {:induction false} KeptDistinct(ts: seq<CString>, n: nat, i: nat, j: nat)
    requires n <= |ts| && i < j < |Kept(ts, n)|
    ensures Key(Kept(ts, n)[i]) != Key(Kept(ts, n)[j])
  {
    var front := Kept(ts, n - 1);
    if j < |front| {
      KeptDistinct(ts, n - 1, i, j);
    } else {
      assert front[i] in Kept(ts, n - 1);
      KeptFrom(ts, n - 1, front[i]);
    }
  }

  lemma {:induction false} SkipInside(a: CString, t: CString, i: nat)
    requires i <= |a| && t != [] && t[0] != SEPARATOR
    ensures Skip(a + [SEPARATOR] + t, i, false) == Skip(a, i, false)
    ensures Skip(a + [SEPARATOR] + t, i, true) == if Skip(a, i, true) < |a| then Skip(a, i, true) else |a| + 1
    decreases |a| - i
  {
    if i < |a| {
      SkipInside(a, t, i + 1);
    }
  }

  lemma {:induction false} SkipToEnd(s: CString, i: nat)
    requires i <= |s| && forall n :: i <= n < |s| ==> s[n] != SEPARATOR
    ensures Skip(s, i, false) == |s|
    decreases |s| - i
  {
    if i < |s| {
      SkipToEnd(s, i + 1);
    }
  }

  /** Text behind a further separator is one more token. */
  lemma {:induction false} TokensAppend(a: CString, t: CString, i: nat)
    requires i <= |a| && t != [] && SEPARATOR !in t
    ensures Tokens(a + [SEPARATOR] + t, i) == Tokens(a, i) + [t]
    decreases |a| - i
  {
    hide Skip;
    var s := a + [SEPARATOR] + t;
    SkipInside(a, t, i);
    var b := Skip(a, i, true);
    if b < |a| {
      SkipInside(a, t, b);
      var e := Skip(a, b, false);
      assert s[b..e] == a[b..e];
      TokensAppend(a, t, e);
    } else {
      SkipToEnd(s, |a| + 1);
      NoTokens(s);
      assert s[|a| + 1..|s|] == t;
      assert Tokens(s, i) == [s[|a| + 1..|s|]] + Tokens(s, |s|);
    }
  }

  lemma OneToken(t: CString)
    requires t != [] && SEPARATOR !in t
    ensures Tokens(t, 0) == [t]
  {
    SkipToEnd(t, 0);
    NoTokens(t);
    assert t[0..|t|] == t;
  }

  /** Cutting a joined list gives the list back. */
  lemma {:induction false} JoinThenCut(ts: seq<CString>)
    requires NoEmpty(ts) && NoSeparators(ts)
    ensures Tokens(Join(ts), 0) == ts
  {
    hide Skip, Tokens;
    NoTokens([]);
    if |ts| == 1 {
      OneToken(ts[0]);
    } else if ts != [] {
      var front := ts[..|ts| - 1];
      JoinThenCut(front);
      TokensAppend(Join(front), ts[|ts| - 1], 0);
    }
  }

  /** A recipient that cuts the relayed section finds exactly the kept tokens. */
  lemma RelayReadBack(tags: CString)
    ensures Tokens(Join(Kept(Tokens(tags, 0), |Tokens(tags, 0)|)), 0) == Kept(Tokens(tags, 0), |Tokens(tags, 0)|)
  {
    var ts := Tokens(tags, 0);
    var kept := Kept(ts, |ts|);
    TokensNotEmpty(tags, 0);
    TokensNoSeparators(tags, 0);
    forall n | 0 <= n < |kept| ensures kept[n] != [] && SEPARATOR !in kept[n] {
      KeptFrom(ts, |ts|, kept[n]);
    }
    JoinThenCut(kept);
  }
}
