/**
 The per-address connection index of server.c: connection_count_add and _remove,
 server_connection_count_move and server_connection_limit_reached over the
 case-mapped hash table, kept in step with the array of live clients.
 */
module ConnectionIndex {
  import opened Text
  import opened HashTable

  const SIZE_MAX: nat := 0xFFFF_FFFF_FFFF_FFFF

  /** inet_pton followed by inet_ntop: the canonical text of a numeric address. */
  type Canonicaliser = CString -> Option<CString>

  /** Canonical address text: decimal digits, lower-case hexadecimal digits, dots and colons. */
  predicate AddressText(s: CString) {
    forall i :: 0 <= i < |s| ==>
      || '0' as int <= s[i] <= '9' as int || 'a' as int <= s[i] <= 'f' as int
      || s[i] == '.' as int || s[i] == ':' as int
  }

  /** Canonical text is address text and is its own canonical form. */
  ghost predicate Canonical(canon: Canonicaliser) {
    forall s: CString :: canon(s).Some? ==> AddressText(canon(s).value) && canon(canon(s).value) == canon(s)
  }

  /** Folding leaves address text alone, so distinct addresses are distinct keys. */
  lemma AddressFoldsToItself(s: CString)
    requires AddressText(s)
    ensures Folded(s) == s
  {
  }

  datatype Peer = Peer(id: nat, realIp: CString)

  /** Number of peers with the given canonical address. */
  ghost function CountOf(canon: Canonicaliser, peers: seq<Peer>, key: seq<byte>): nat {
    if peers == [] then 0
    else CountOf(canon, peers[..|peers| - 1], key) + if HasKey(canon, peers[|peers| - 1], key) then 1 else 0
  }

  ghost predicate HasKey(canon: Canonicaliser, p: Peer, key: seq<byte>) {
    canon(p.realIp).Some? && canon(p.realIp).value == key
  }

  lemma CountAppend(canon: Canonicaliser, peers: seq<Peer>, p: Peer, key: seq<byte>)
    ensures CountOf(canon, peers + [p], key) == CountOf(canon, peers, key) + if HasKey(canon, p, key) then 1 else 0
  {
    assert (peers + [p])[..|peers|] == peers;
  }

  /** Replacing one peer changes the counts by that peer only. */
  lemma {:induction false} CountReplace(canon: Canonicaliser, peers: seq<Peer>, i: nat, p: Peer, key: seq<byte>)
    requires i < |peers|
    ensures CountOf(canon, peers[i := p], key) + (if HasKey(canon, peers[i], key) then 1 else 0)
            == CountOf(canon, peers, key) + if HasKey(canon, p, key) then 1 else 0
  {
    var front := peers[..|peers| - 1];
    if i == |peers| - 1 {
      assert peers[i := p][..|peers| - 1] == front;
    } else {
      CountReplace(canon, front, i, p, key);
      assert peers[i := p][..|peers| - 1] == front[i := p];
    }
  }

  /** Removal as the server does it: the last peer takes the place of the removed one. */
  function SwapRemove(peers: seq<Peer>, i: nat): seq<Peer>
    requires i < |peers|
  {
    peers[i := peers[|peers| - 1]][..|peers| - 1]
  }

  lemma CountSwapRemove(canon: Canonicaliser, peers: seq<Peer>, i: nat, key: seq<byte>)
    requires i < |peers|
    ensures CountOf(canon, SwapRemove(peers, i), key) + (if HasKey(canon, peers[i], key) then 1 else 0)
            == CountOf(canon, peers, key)
  {
    var last := peers[|peers| - 1];
    CountReplace(canon, peers, i, last, key);
    var moved := peers[i := last];
    assert moved[|moved| - 1] == last;
  }

  /** A count is positive exactly when some peer has the address. */
  lemma {:induction false} CountPositive(canon: Canonicaliser, peers: seq<Peer>, i: nat, key: seq<byte>)
    requires i < |peers| && HasKey(canon, peers[i], key)
    ensures CountOf(canon, peers, key) > 0
  {
    if i < |peers| - 1 {
      CountPositive(canon, peers[..|peers| - 1], i, key);
    }
  }

  /** The index as a map: one record per address in use, holding its count and never zero. */
  ghost predicate Exact(canon: Canonicaliser, peers: seq<Peer>, view: map<seq<byte>, nat>) {
    forall key: seq<byte> ::
      && (key in view <==> CountOf(canon, peers, key) > 0)
      && (key in view ==> view[key] == CountOf(canon, peers, key))
  }

  ghost function Lookup(view: map<seq<byte>, nat>, key: seq<byte>): nat {
    if key in view then view[key] else 0
  }

  lemma LookupExact(canon: Canonicaliser, peers: seq<Peer>, view: map<seq<byte>, nat>, key: seq<byte>)
    requires Exact(canon, peers, view)
    ensures Lookup(view, key) == CountOf(canon, peers, key)
  {
  }

  /** The view after one more and one fewer connection of an address. */
  ghost function Plus(view: map<seq<byte>, nat>, key: seq<byte>): map<seq<byte>, nat> {
    view[key := Lookup(view, key) + 1]
  }

  ghost function Minus(view: map<seq<byte>, nat>, key: seq<byte>): map<seq<byte>, nat> {
    if Lookup(view, key) > 1 then view[key := Lookup(view, key) - 1] else view - {key}
  }

  lemma ExactAppend(canon: Canonicaliser, peers: seq<Peer>, view: map<seq<byte>, nat>, p: Peer)
    requires Exact(canon, peers, view) && canon(p.realIp).Some?
    ensures Exact(canon, peers + [p], Plus(view, canon(p.realIp).value))
  {
    hide CountOf;
    forall key: seq<byte> {
      CountAppend(canon, peers, p, key);
    }
  }

  lemma ExactSwapRemove(canon: Canonicaliser, peers: seq<Peer>, view: map<seq<byte>, nat>, i: nat)
    requires Exact(canon, peers, view) && i < |peers| && canon(peers[i].realIp).Some?
    ensures Exact(canon, SwapRemove(peers, i), Minus(view, canon(peers[i].realIp).value))
  {
    hide CountOf, SwapRemove;
    forall key: seq<byte> {
      CountSwapRemove(canon, peers, i, key);
    }
    CountPositive(canon, peers, i, canon(peers[i].realIp).value);
  }

  lemma ExactReplace(canon: Canonicaliser, peers: seq<Peer>, view: map<seq<byte>, nat>, i: nat, p: Peer)
    requires Exact(canon, peers, view) && i < |peers| && canon(peers[i].realIp).Some? && canon(p.realIp).Some?
    ensures var from: seq<byte>, to: seq<byte> := canon(peers[i].realIp).value, canon(p.realIp).value;
            Exact(canon, peers[i := p], if from == to then view else Minus(Plus(view, to), from))
  {
    hide CountOf;
    forall key: seq<byte> {
      CountReplace(canon, peers, i, p, key);
    }
    CountPositive(canon, peers, i, canon(peers[i].realIp).value);
  }

  class Server {
    const canon: Canonicaliser
    const maxPerIp: nat
    const counts: Table<nat>
    var clients: seq<Peer>
    var nextId: nat

    ghost predicate Valid()
      reads this, counts, counts.buckets
    {
      && counts.Valid() && Canonical(canon)
      && Exact(canon, clients, counts.view)
      && forall i :: 0 <= i < |clients| ==> canon(clients[i].realIp).Some?
    }

    constructor (canon: Canonicaliser, maxPerIp: nat, buckets: nat)
      requires Canonical(canon) && buckets > 0
      ensures Valid() && clients == [] && fresh(counts) && fresh(counts.buckets)
      ensures this.canon == canon && this.maxPerIp == maxPerIp
    {
      this.canon, this.maxPerIp := canon, maxPerIp;
      counts := new Table<nat>(buckets);
      clients, nextId := [], 0;
    }

    /** connection_count_add: 0 when the address is counted, -1 when it cannot be. */
    method CountAdd(ip: CString, memory: bool) returns (rc: int)
      requires counts.Valid() && Canonical(canon)
      modifies counts`view, counts.buckets
      ensures counts.Valid() && (rc == 0 || rc == -1)
      ensures canon(ip).None? || Lookup(old(counts.view), canon(ip).value) == SIZE_MAX ==> rc == -1
      ensures rc == -1 ==> counts.view == old(counts.view)
      ensures rc == 0 ==> counts.view == Plus(old(counts.view), canon(ip).value)
      ensures canon(ip).Some? && memory && Lookup(old(counts.view), canon(ip).value) < SIZE_MAX ==> rc == 0
    {
      var key := canon(ip);
      if key.None? {
        return -1;
      }
      AddressFoldsToItself(key.value);
      var record := counts.Get(key.value);
      if record.Some? {
        if record.value == SIZE_MAX {
          return -1;
        }
        rc := counts.Set(key.value, record.value + 1, true);
        return;
      }
      rc := counts.Set(key.value, 1, memory);
    }

    /** connection_count_remove */
    method CountRemove(ip: CString)
      requires counts.Valid() && Canonical(canon)
      modifies counts`view, counts.buckets
      ensures counts.Valid()
      ensures counts.view == if canon(ip).Some? then Minus(old(counts.view), canon(ip).value) else old(counts.view)
    {
      var key := canon(ip);
      if key.None? {
        return;
      }
      AddressFoldsToItself(key.value);
      var record := counts.Get(key.value);
      if record.None? {
        assert counts.view == counts.view - {key.value};
        return;
      }
      if record.value > 1 {
        var rc := counts.Set(key.value, record.value - 1, true);
      } else {
        var gone := counts.Remove(key.value);
      }
    }

    /** The indexing part of accept_clients: a client is live only once its address is counted. */
    method Accept(ip: CString, memory: bool) returns (ok: bool)
      requires Valid()
      modifies this`clients, this`nextId, counts`view, counts.buckets
      ensures Valid()
      ensures !ok ==> clients == old(clients)
      ensures ok ==> clients == old(clients) + [Peer(nextId, ip)]
      ensures canon(ip).None? ==> !ok
      ensures canon(ip).Some? && memory && CountOf(canon, old(clients), canon(ip).value) < SIZE_MAX ==> ok
    {
      hide Exact, Canonical, CountOf;
      if canon(ip).Some? {
        LookupExact(canon, clients, counts.view, canon(ip).value);
      }
      nextId := nextId + 1;
      var rc := CountAdd(ip, memory);
      if rc != 0 {
        return false;
      }
      var peer := Peer(nextId, ip);
      ExactAppend(canon, clients, old(counts.view), peer);
      clients := clients + [peer];
      ok := true;
    }

    /** The indexing part of server_disconnect. */
    method Disconnect(i: nat)
      requires Valid() && i < |clients|
      modifies this`clients, counts`view, counts.buckets
      ensures Valid() && clients == SwapRemove(old(clients), i)
    {
      hide Exact, Canonical;
      ExactSwapRemove(canon, clients, counts.view, i);
      CountRemove(clients[i].realIp);
      clients := clients[i := clients[|clients| - 1]][..|clients| - 1];
    }

    /**
     server_connection_count_move and the identity change it guards: the client is
     counted under its new address before it is forgotten under the old one.
     */
    method MoveIdentity(i: nat, newIp: CString, memory: bool) returns (rc: int)
      requires Valid() && i < |clients|
      modifies this`clients, counts`view, counts.buckets
      ensures Valid() && (rc == 0 || rc == -1)
      ensures rc == -1 ==> clients == old(clients) && counts.view == old(counts.view)
      ensures canon(newIp).Some? && canon(newIp) == canon(old(clients)[i].realIp) ==> rc == 0
      ensures canon(newIp).Some? && memory && CountOf(canon, old(clients), canon(newIp).value) < SIZE_MAX ==> rc == 0
      ensures rc == 0 ==>
                && canon(newIp).Some?
                && clients == old(clients)[i := old(clients)[i].(realIp := canon(newIp).value)]
    {
      var oldKey, newKey := canon(clients[i].realIp), canon(newIp);
      CountPositive(canon, clients, i, oldKey.value);
      LookupExact(canon, clients, counts.view, oldKey.value);
      if newKey.Some? {
        LookupExact(canon, clients, counts.view, newKey.value);
      }
      if oldKey.None? || newKey.None? {
        return -1;
      }
      AddressFoldsToItself(oldKey.value);
      var record := counts.Get(oldKey.value);
      if record.None? || record.value == 0 {
        return -1;
      }
      var moved := clients[i].(realIp := newKey.value);
      ExactReplace(canon, clients, counts.view, i, moved);
      if oldKey.value != newKey.value {
        rc := CountAdd(newKey.value, memory);
        if rc != 0 {
          return -1;
        }
        CountRemove(oldKey.value);
      }
      clients := clients[i := moved];
      rc := 0;
    }

    /**
     server_connection_limit_reached equals a scan over the live clients that skips
     the excluded one.
     */
    method LimitReached(ip: CString, exempt: bool, exclude: Option<nat>) returns (reached: bool)
      requires Valid() && (exclude.Some? ==> exclude.value < |clients|)
      ensures ip == [] || maxPerIp == 0 || exempt || canon(ip).None? ==> !reached
      ensures ip != [] && maxPerIp != 0 && !exempt && canon(ip).Some? ==>
                var others := if exclude.Some? then SwapRemove(clients, exclude.value) else clients;
                reached <==> CountOf(canon, others, canon(ip).value) >= maxPerIp
    {
      if ip == [] || maxPerIp == 0 || exempt {
        return false;
      }
      var key := canon(ip);
      if key.None? {
        return false;
      }
      AddressFoldsToItself(key.value);
      var record := counts.Get(key.value);
      var count := if record.Some? then record.value else 0;
      assert count == CountOf(canon, clients, key.value);
      if exclude.Some? {
        CountSwapRemove(canon, clients, exclude.value, key.value);
        if count > 0 && canon(clients[exclude.value].realIp) == canon(key.value) {
          count := count - 1;
        }
      }
      reached := count >= maxPerIp;
    }
  }
}
