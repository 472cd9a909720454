/**
 The case-mapped hash table of hash.c: separately chained buckets keyed by strings
 under RFC 1459 casemapping, behaving as a map from folded keys to values.
 */
module HashTable {
  import opened Text

  /** The folds of hash.c and channel_policy.c run in opposite directions but identify the same bytes. */
  lemma FoldsAgree(a: byte, b: byte)
    ensures FoldToBraces(a) == FoldToBraces(b) <==> FoldToBrackets(a) == FoldToBrackets(b)
    ensures FoldToBraces(a) == FoldToBraces(b) <==>
              || a == b
              || ('A' as int <= a <= '^' as int && b == a + 32)
              || ('A' as int <= b <= '^' as int && a == b + 32)
  {
  }

  /** Hence two names are the same to the mask matcher exactly when they are the same key. */
  lemma SameNameSameKey(a: CString, b: CString)
    ensures Folded(a) == Folded(b) <==>
              |a| == |b| && forall i :: 0 <= i < |a| ==> FoldToBraces(a[i]) == FoldToBraces(b[i])
  {
    if |a| == |b| {
      forall i | 0 <= i < |a|
        ensures FoldToBraces(a[i]) == FoldToBraces(b[i]) <==> Folded(a)[i] == Folded(b)[i]
      {
        FoldsAgree(a[i], b[i]);
      }
      if forall i :: 0 <= i < |a| ==> FoldToBraces(a[i]) == FoldToBraces(b[i]) {
        assert forall i :: 0 <= i < |a| ==> Folded(a)[i] == Folded(b)[i];
      }
    }
  }

  /** One round of hash_ci in 64-bit unsigned arithmetic. */
  function Mix(hash: bv64, b: byte): bv64 { ((hash << 5) + hash) ^ (b as bv64) }

  /** The hash depends on the fold class only. */
  function HashOf(folded: seq<byte>): bv64 {
    if folded == [] then 5381 else Mix(HashOf(folded[..|folded| - 1]), folded[|folded| - 1])
  }

  function BucketOf(folded: seq<byte>, buckets: nat): (i: nat)
    requires buckets > 0
    ensures i < buckets
  {
    (HashOf(folded) as nat) % buckets
  }

  method HashCi(text: CString) returns (hash: bv64)
    ensures hash == HashOf(Folded(text))
  {
    hide Mix;
    hash := 5381;
    ghost var folded := Folded(text);
    for i := 0 to |text|
      invariant hash == HashOf(folded[..i])
    {
      assert folded[..i + 1][..i] == folded[..i];
      hash := Mix(hash, FoldToBrackets(text[i]));
    }
    assert folded[..|text|] == folded;
  }

  method KeyEqualCi(left: CString, right: CString) returns (r: bool)
    ensures r <==> Folded(left) == Folded(right)
  {
    var i := 0;
    while i < |left| && i < |right|
      invariant 0 <= i <= |left| && i <= |right|
      invariant forall n :: 0 <= n < i ==> Folded(left)[n] == Folded(right)[n]
    {
      if FoldToBrackets(left[i]) != FoldToBrackets(right[i]) {
        assert Folded(left)[i] != Folded(right)[i];
        return false;
      }
      i := i + 1;
    }
    r := i == |left| && i == |right|;
  }

  datatype Entry<V> = Entry(key: CString, value: V)

  /** Position of the fold class in a chain, or the chain length. */
  ghost function Position<V>(chain: seq<Entry<V>>, k: seq<byte>): (j: nat)
    ensures j <= |chain|
    ensures j < |chain| ==> Folded(chain[j].key) == k
    ensures forall n :: 0 <= n < j ==> Folded(chain[n].key) != k
  {
    if chain == [] || Folded(chain[0].key) == k then 0 else 1 + Position(chain[1..], k)
  }

  /** Every entry is in its own bucket and has the value the map gives its fold class. */
  ghost predicate Placed<V>(chain: seq<Entry<V>>, view: map<seq<byte>, V>, bucket: nat, buckets: nat)
    requires buckets > 0
  {
    forall j :: 0 <= j < |chain| ==>
      && BucketOf(Folded(chain[j].key), buckets) == bucket
      && Folded(chain[j].key) in view && view[Folded(chain[j].key)] == chain[j].value
  }

  ghost predicate OnePerClass<V>(chain: seq<Entry<V>>) {
    forall i, j :: 0 <= i < j < |chain| ==> Folded(chain[i].key) != Folded(chain[j].key)
  }

  /** A chain stores exactly the part of the map that falls into its bucket, one entry per fold class. */
  ghost predicate ChainHolds<V>(chain: seq<Entry<V>>, view: map<seq<byte>, V>, bucket: nat, buckets: nat)
    requires buckets > 0
  {
    && Placed(chain, view, bucket, buckets) && OnePerClass(chain)
    && (forall k :: k in view && BucketOf(k, buckets) == bucket ==> Position(chain, k) < |chain|)
  }

  class Table<V> {
    const buckets: array<seq<Entry<V>>>
    ghost var view: map<seq<byte>, V>

    ghost predicate Valid()
      reads this, buckets
    {
      && buckets.Length > 0
      && forall b :: 0 <= b < buckets.Length ==> ChainHolds(buckets[b], view, b, buckets.Length)
    }

    constructor (bucketCount: nat)
      requires bucketCount > 0
      ensures Valid() && view == map[] && fresh(buckets)
    {
      buckets := new seq<Entry<V>>[bucketCount](_ => []);
      view := map[];
    }

    /** The chain walk shared by all three operations. */
    method Locate(key: CString) returns (b: nat, j: nat)
      requires Valid()
      ensures b == BucketOf(Folded(key), buckets.Length) && j == Position(buckets[b], Folded(key))
    {
      hide ChainHolds, Mix;
      var hash := HashCi(key);
      b := (hash as nat) % buckets.Length;
      var chain := buckets[b];
      ghost var k := Folded(key);
      j := 0;
      while j < |chain|
        invariant 0 <= j <= |chain|
        invariant Position(chain, k) == j + Position(chain[j..], k)
      {
        var same := KeyEqualCi(chain[j].key, key);
        if same {
          return;
        }
        assert chain[j..][1..] == chain[j + 1..];
        j := j + 1;
      }
    }

    /** hash_get */
    method Get(key: CString) returns (r: Option<V>)
      requires Valid()
      ensures r == if Folded(key) in view then Some(view[Folded(key)]) else None
    {
      var b, j := Locate(key);
      assert ChainHolds(buckets[b], view, b, buckets.Length);
      if j < |buckets[b]| {
        r := Some(buckets[b][j].value);
      } else {
        r := None;
      }
    }

    /** hash_set: replace the value of the fold class or insert a new entry at the head of its chain. */
    method Set(key: CString, value: V, memory: bool) returns (rc: int)
      requires Valid()
      modifies this`view, buckets
      ensures Valid()
      ensures rc == if Folded(key) in old(view) || memory then 0 else -1
      ensures view == if rc == 0 then old(view)[Folded(key) := value] else old(view)
    {
      var b, j := Locate(key);
      ghost var k := Folded(key);
      assert ChainHolds(buckets[b], view, b, buckets.Length);
      if j < |buckets[b]| {
        var chain := buckets[b];
        StoreReplaces(chain, view, b, buckets.Length, j, value);
        OtherChains(k, value);
        buckets[b] := chain[j := chain[j].(value := value)];
        view := view[k := value];
        return 0;
      }
      if !memory {
        return -1;
      }
      StoreInserts(buckets[b], view, b, buckets.Length, key, value);
      OtherChains(k, value);
      buckets[b] := [Entry(key, value)] + buckets[b];
      view := view[k := value];
      rc := 0;
    }

    /** hash_remove: unlink the entry of the fold class and hand its value back. */
    method Remove(key: CString) returns (r: Option<V>)
      requires Valid()
      modifies this`view, buckets
      ensures Valid()
      ensures r == if Folded(key) in old(view) then Some(old(view)[Folded(key)]) else None
      ensures view == old(view) - {Folded(key)}
    {
      var b, j := Locate(key);
      ghost var k := Folded(key);
      assert ChainHolds(buckets[b], view, b, buckets.Length);
      if j == |buckets[b]| {
        assert view == view - {k};
        return None;
      }
      var chain := buckets[b];
      r := Some(chain[j].value);
      UnlinkRemoves(chain, view, b, buckets.Length, j);
      forall c | 0 <= c < buckets.Length && c != b
        ensures ChainHolds(buckets[c], view - {k}, c, buckets.Length)
      {
        ChainForgets(buckets[c], view, c, buckets.Length, k);
      }
      buckets[b] := chain[..j] + chain[j + 1..];
      view := view - {k};
    }

    /** An update of one fold class does not concern the other buckets. */
    lemma OtherChains(k: seq<byte>, value: V)
      requires Valid()
      ensures forall c :: 0 <= c < buckets.Length && c != BucketOf(k, buckets.Length) ==>
                            ChainHolds(buckets[c], view[k := value], c, buckets.Length)
    {
      forall c | 0 <= c < buckets.Length && c != BucketOf(k, buckets.Length)
        ensures ChainHolds(buckets[c], view[k := value], c, buckets.Length)
      {
        ChainIgnores(buckets[c], view, c, buckets.Length, k, value);
      }
    }
  }

  lemma ChainIgnores<V>(chain: seq<Entry<V>>, view: map<seq<byte>, V>, b: nat, n: nat, k: seq<byte>, value: V)
    requires n > 0 && ChainHolds(chain, view, b, n) && BucketOf(k, n) != b
    ensures ChainHolds(chain, view[k := value], b, n)
  {
    hide BucketOf, Folded, Position;
  }

  lemma ChainForgets<V>(chain: seq<Entry<V>>, view: map<seq<byte>, V>, b: nat, n: nat, k: seq<byte>)
    requires n > 0 && ChainHolds(chain, view, b, n) && BucketOf(k, n) != b
    ensures ChainHolds(chain, view - {k}, b, n)
  {
    hide BucketOf, Folded, Position;
  }

  lemma StoreReplaces<V>(chain: seq<Entry<V>>, view: map<seq<byte>, V>, b: nat, n: nat, j: nat, value: V)
    requires n > 0 && ChainHolds(chain, view, b, n) && j < |chain|
    ensures ChainHolds(chain[j := chain[j].(value := value)], view[Folded(chain[j].key) := value], b, n)
  {
    hide BucketOf, Folded, Position;
    var chain', k := chain[j := chain[j].(value := value)], Folded(chain[j].key);
    forall q | q in view[k := value] && BucketOf(q, n) == b ensures Position(chain', q) < |chain'| {
      var p := Position(chain, q);
      assert Folded(chain'[p].key) == q;
    }
  }

  lemma StoreInserts<V>(chain: seq<Entry<V>>, view: map<seq<byte>, V>, b: nat, n: nat, key: CString, value: V)
    requires n > 0 && ChainHolds(chain, view, b, n) && BucketOf(Folded(key), n) == b
    requires Position(chain, Folded(key)) == |chain|
    ensures ChainHolds([Entry(key, value)] + chain, view[Folded(key) := value], b, n)
  {
    hide BucketOf, Folded, Position, Placed, OnePerClass;
    var chain', k := [Entry(key, value)] + chain, Folded(key);
    InsertPlaced(chain, view, b, n, key, value);
    forall q | q in view[k := value] && BucketOf(q, n) == b ensures Position(chain', q) < |chain'| {
      if q == k {
        assert Folded(chain'[0].key) == q;
      } else {
        var p := Position(chain, q);
        assert Folded(chain'[p + 1].key) == q;
      }
    }
  }

  lemma InsertPlaced<V>(chain: seq<Entry<V>>, view: map<seq<byte>, V>, b: nat, n: nat, key: CString, value: V)
    requires n > 0 && Placed(chain, view, b, n) && OnePerClass(chain) && BucketOf(Folded(key), n) == b
    requires Position(chain, Folded(key)) == |chain|
    ensures Placed([Entry(key, value)] + chain, view[Folded(key) := value], b, n)
    ensures OnePerClass([Entry(key, value)] + chain)
  {
    hide BucketOf, Folded, Position;
  }

  lemma UnlinkRemoves<V>(chain: seq<Entry<V>>, view: map<seq<byte>, V>, b: nat, n: nat, j: nat)
    requires n > 0 && ChainHolds(chain, view, b, n) && j < |chain|
    ensures ChainHolds(chain[..j] + chain[j + 1..], view - {Folded(chain[j].key)}, b, n)
  {
    hide BucketOf, Folded, Position;
    var chain', k := chain[..j] + chain[j + 1..], Folded(chain[j].key);
    forall q | q in view - {k} && BucketOf(q, n) == b ensures Position(chain', q) < |chain'| {
      var p := Position(chain, q);
      assert p != j;
      assert chain'[if p < j then p else p - 1] == chain[p];
    }
  }
}
