/**
 Channel state persistence: the mask lists of channel.c, the access decisions of
 channel_policy.c, and the save and restore of chanserv_persist.c that carry them
 through the database.
 */
module Persist {
  import opened Text
  import Glob

  const MASK_MAX: nat := 255
  const MASK_LIST_MAX: nat := 100
  const NAME_MAX: nat := 32
  const KEY_MAX: nat := 63
  const INT64_MAX: nat := 0x7FFF_FFFF_FFFF_FFFF
  const UINT_MAX: nat := 0xFFFF_FFFF
  const NICK_MAX: nat := 15
  const USER_MAX: nat := 10
  const HOST_MAX: nat := 63
  const IDENTITY_BUFFER: nat := 1024
  const CR: CChar := 13
  const NL: CChar := 10

  // ---------------------------------------------------------------- mask lists

  datatype Mask = Mask(mask: CString, authorized: bool)

  /** Position of a mask in a list, or the length. */
  function Position(list: seq<Mask>, mask: CString): (i: nat)
    ensures i <= |list|
    ensures i < |list| ==> list[i].mask == mask
    ensures forall n :: 0 <= n < i ==> list[n].mask != mask
  {
    if list == [] || list[0].mask == mask then 0 else 1 + Position(list[1..], mask)
  }

  datatype Added = Refused | Full | Ok(list: seq<Mask>)

  /** channel_mask_add_authorized: a known mask may gain its flag, a new one goes to the head. */
  function Add(list: seq<Mask>, mask: CString, authorized: bool): Added {
    if mask == [] || |mask| > MASK_MAX then Refused
    else
      var i := Position(list, mask);
      if i < |list| then Ok(if authorized then list[i := Mask(mask, true)] else list)
      else if |list| >= MASK_LIST_MAX then Full
      else Ok([Mask(mask, authorized)] + list)
  }

  /** channel_mask_remove */
  function Remove(list: seq<Mask>, mask: CString): seq<Mask> {
    var i := Position(list, mask);
    if i < |list| then list[..i] + list[i + 1..] else list
  }

  ghost predicate Distinct(list: seq<Mask>) {
    forall i, j :: 0 <= i < j < |list| ==> list[i].mask != list[j].mask
  }

  /** What every list the server builds satisfies. */
  ghost predicate GoodList(list: seq<Mask>) {
    && |list| <= MASK_LIST_MAX && Distinct(list)
    && forall i :: 0 <= i < |list| ==> 0 < |list[i].mask| <= MASK_MAX
  }

  /** Adding keeps lists free of duplicates, short enough and of proper masks. */
  lemma AddKept(list: seq<Mask>, mask: CString, authorized: bool)
    requires GoodList(list) && Add(list, mask, authorized).Ok?
    ensures GoodList(Add(list, mask, authorized).list)
  {
    hide Position;
  }

  /** Removing does so too, and leaves the mask nowhere in the list. */
  lemma RemoveKept(list: seq<Mask>, mask: CString)
    requires GoodList(list)
    ensures GoodList(Remove(list, mask)) && Position(Remove(list, mask), mask) == |Remove(list, mask)|
  {
    hide Position;
    var i := Position(list, mask);
    var rest := Remove(list, mask);
    if i < |list| {
      assert forall n :: 0 <= n < |rest| ==> rest[n] == if n < i then list[n] else list[n + 1];
    }
  }

  /** A list without a mask, everything else in order. */
  function Dropping(list: seq<Mask>, mask: CString): seq<Mask> {
    if list == [] then []
    else (if list[0].mask == mask then [] else [list[0]]) + Dropping(list[1..], mask)
  }

  lemma {:induction false} DroppingAbsent(list: seq<Mask>, mask: CString)
    requires forall i :: 0 <= i < |list| ==> list[i].mask != mask
    ensures Dropping(list, mask) == list
  {
    if list != [] {
      DroppingAbsent(list[1..], mask);
    }
  }

  /** Removing takes exactly the mask out and leaves every other entry, its flag and the order alone. */
  lemma {:induction false} RemoveExact(list: seq<Mask>, mask: CString)
    requires Distinct(list)
    ensures Remove(list, mask) == Dropping(list, mask)
    decreases |list|
  {
    if list != [] {
      var rest := list[1..];
      if list[0].mask == mask {
        DroppingAbsent(rest, mask);
      } else {
        RemoveExact(rest, mask);
        assert Position(list, mask) == 1 + Position(rest, mask);
        assert Remove(list, mask) == [list[0]] + Remove(rest, mask);
      }
    }
  }

  predicate Known(list: seq<Mask>, mask: CString) { exists i :: 0 <= i < |list| && list[i].mask == mask }

  /**
   Adding in every case: an improper mask is refused, a known one keeps its place and
   can only gain its flag, a new one goes to the head with its flag unless the list is
   full; no other entry changes.
   */
  lemma AddExact(list: seq<Mask>, mask: CString, authorized: bool)
    requires Distinct(list)
    ensures Add(list, mask, authorized) == Refused <==> mask == [] || |mask| > 255
    ensures Add(list, mask, authorized) == Full <==>
              0 < |mask| <= 255 && !Known(list, mask) && |list| >= 100
    ensures Add(list, mask, authorized).Ok? ==>
              var after := Add(list, mask, authorized).list;
              if !Known(list, mask) then after == [Mask(mask, authorized)] + list
              else
                && |after| == |list|
                && forall i :: 0 <= i < |list| ==>
                     after[i] == Mask(list[i].mask, list[i].authorized || (list[i].mask == mask && authorized))
  {
    hide Position;
  }

  class MaskList {
    var entries: seq<Mask>

    constructor ()
      ensures entries == [] && GoodList(entries)
    {
      entries := [];
    }

    /** The walk over the linked list. */
    method Search(mask: CString) returns (i: nat)
      ensures i == Position(entries, mask)
    {
      i := 0;
      while i < |entries|
        invariant 0 <= i <= |entries|
        invariant Position(entries, mask) == i + Position(entries[i..], mask)
      {
        if entries[i].mask == mask {
          return;
        }
        assert entries[i..][1..] == entries[i + 1..];
        i := i + 1;
      }
    }

    method AddAuthorized(mask: CString, authorized: bool, memory: bool) returns (rc: int)
      requires GoodList(entries)
      modifies this
      ensures GoodList(entries)
      ensures match Add(old(entries), mask, authorized)
              case Refused => rc == -1 && entries == old(entries)
              case Full => rc == -2 && entries == old(entries)
              case Ok(list) =>
                if memory || |list| == |old(entries)| then rc == 0 && entries == list
                else rc == -1 && entries == old(entries)
    {
      if Add(entries, mask, authorized).Ok? {
        AddKept(entries, mask, authorized);
      }
      if mask == [] || |mask| > MASK_MAX {
        return -1;
      }
      var i := Search(mask);
      if i < |entries| {
        if authorized {
          entries := entries[i := Mask(mask, true)];
        }
        return 0;
      }
      if |entries| >= MASK_LIST_MAX {
        return -2;
      }
      if !memory {
        return -1;
      }
      entries := [Mask(mask, authorized)] + entries;
      rc := 0;
    }

    method RemoveMask(mask: CString) returns (removed: bool)
      requires GoodList(entries)
      modifies this
      ensures GoodList(entries) && entries == Remove(old(entries), mask)
      ensures removed <==> entries != old(entries)
    {
      RemoveKept(entries, mask);
      var i := Search(mask);
      if i == |entries| {
        return false;
      }
      entries := entries[..i] + entries[i + 1..];
      removed := true;
    }
  }

  // ---------------------------------------------------------------- access decisions

  ghost predicate AnyMatch(list: seq<Mask>, identity: CString, authorizedOnly: bool) {
    exists e :: e in list && (authorizedOnly ==> e.authorized) && Glob.Matches(Glob.Rfc1459, e.mask, identity)
  }

  /** Whom a mask is matched against. */
  datatype Person = Person(nick: CString, user: CString, host: CString)

  predicate FieldsFit(p: Person) { |p.nick| <= NICK_MAX && |p.user| <= USER_MAX && |p.host| <= HOST_MAX }

  function Identity(p: Person): CString { p.nick + ['!' as int] + p.user + ['@' as int] + p.host }

  /** The identity as it is formatted into its buffer. */
  function Formatted(p: Person): CString {
    if |Identity(p)| < IDENTITY_BUFFER then Identity(p) else Identity(p)[..IDENTITY_BUFFER - 1]
  }

  /** The buffer never cuts an identity. */
  lemma FormattedWhole(p: Person)
    requires FieldsFit(p)
    ensures Formatted(p) == Identity(p)
  {
  }

  /** channel_mask_matches_client and authorized_ban_matches_client */
  method MatchesClient(list: seq<Mask>, person: Person, authorizedOnly: bool) returns (r: bool)
    requires FieldsFit(person)
    ensures r <==> AnyMatch(list, Identity(person), authorizedOnly)
  {
    hide Glob.Matches, Identity;
    FormattedWhole(person);
    var identity := Formatted(person);
    for i := 0 to |list|
      invariant forall n :: 0 <= n < i ==>
                !((authorizedOnly ==> list[n].authorized) && Glob.Matches(Glob.Rfc1459, list[n].mask, identity))
    {
      if !authorizedOnly || list[i].authorized {
        var hit := Glob.IrcMaskMatch(list[i].mask, identity);
        if hit {
          assert list[i] in list;
          return true;
        }
      }
    }
    r := false;
  }

  /** The persistent part of a channel. */
  datatype State = State(key: CString, userLimit: nat, joinCount: nat, joinSeconds: nat,
                         limitRedirect: CString, banRedirect: CString,
                         bans: seq<Mask>, exceptions: seq<Mask>, invexes: seq<Mask>)

  const CLEARED: State := State([], 0, 0, 0, [], [], [], [], [])

  ghost predicate Banned(s: State, identity: CString) {
    AnyMatch(s.bans, identity, false) && !AnyMatch(s.exceptions, identity, false)
  }

  ghost predicate BannedProtected(s: State, identity: CString) {
    AnyMatch(s.bans, identity, true) && !AnyMatch(s.exceptions, identity, false)
  }

  ghost predicate Invited(s: State, identity: CString) { AnyMatch(s.invexes, identity, false) }

  /** channel_client_is_banned, channel_client_is_banned_protected and channel_client_is_invex */
  method Decide(s: State, person: Person) returns (banned: bool, bannedProtected: bool, invited: bool)
    requires FieldsFit(person)
    ensures banned <==> Banned(s, Identity(person))
    ensures bannedProtected <==> BannedProtected(s, Identity(person))
    ensures invited <==> Invited(s, Identity(person))
  {
    hide AnyMatch, Identity;
    var ban := MatchesClient(s.bans, person, false);
    var protected := MatchesClient(s.bans, person, true);
    var excepted := MatchesClient(s.exceptions, person, false);
    invited := MatchesClient(s.invexes, person, false);
    banned, bannedProtected := ban && !excepted, protected && !excepted;
  }

  function Reversed(list: seq<Mask>): (r: seq<Mask>)
    ensures |r| == |list| && forall i :: 0 <= i < |list| ==> r[i] == list[|list| - 1 - i]
  {
    if list == [] then [] else Reversed(list[1..]) + [list[0]]
  }

  lemma ReversedTwice(list: seq<Mask>)
    ensures Reversed(Reversed(list)) == list
  {
  }

  lemma ReversedElements(list: seq<Mask>, e: Mask)
    ensures e in Reversed(list) <==> e in list
  {
    if e in list {
      var i :| 0 <= i < |list| && list[i] == e;
      assert Reversed(list)[|list| - 1 - i] == e;
    }
  }

  function Flipped(s: State): State {
    s.(bans := Reversed(s.bans), exceptions := Reversed(s.exceptions), invexes := Reversed(s.invexes))
  }

  /** Decisions do not depend on the order of the lists. */
  lemma SameDecisions(s: State, identity: CString)
    ensures Banned(Flipped(s), identity) <==> Banned(s, identity)
    ensures BannedProtected(Flipped(s), identity) <==> BannedProtected(s, identity)
    ensures Invited(Flipped(s), identity) <==> Invited(s, identity)
  {
    hide AnyMatch;
    MatchReversed(s.bans, identity, false);
    MatchReversed(s.bans, identity, true);
    MatchReversed(s.exceptions, identity, false);
    MatchReversed(s.invexes, identity, false);
  }

  lemma MatchReversed(list: seq<Mask>, identity: CString, authorizedOnly: bool)
    ensures AnyMatch(Reversed(list), identity, authorizedOnly) <==> AnyMatch(list, identity, authorizedOnly)
  {
    hide Glob.Matches, Reversed;
    forall e ensures e in Reversed(list) <==> e in list {
      ReversedElements(list, e);
    }
  }

  // ---------------------------------------------------------------- the database

  /** A channel name as the database compares it. */
  type Name = seq<byte>

  datatype Kind = Ban | Exception | Invex

  /** A row of channel_masks; the table is listed in rowid order. */
  datatype MaskRow = MaskRow(channel: Name, kind: Kind, mask: CString, authorized: bool)

  datatype Db = Db(registered: set<Name>, runtime: map<Name, State>, rows: seq<MaskRow>)

  /** text_fits */
  predicate TextFits(s: CString, max: nat) { |s| <= max && CR !in s && NL !in s }

  /** The primary key of channel_masks. */
  predicate Taken(rows: seq<MaskRow>, name: Name, kind: Kind, mask: CString) {
    exists i :: 0 <= i < |rows| && rows[i].channel == name && rows[i].kind == kind && rows[i].mask == mask
  }

  /** save_masks: insert a list in its own order. */
  function SaveMasks(rows: seq<MaskRow>, name: Name, kind: Kind, list: seq<Mask>): Option<seq<MaskRow>>
    decreases |list|
  {
    if list == [] then Some(rows)
    else if !TextFits(list[0].mask, MASK_MAX) || Taken(rows, name, kind, list[0].mask) then None
    else SaveMasks(rows + [MaskRow(name, kind, list[0].mask, list[0].authorized)], name, kind, list[1..])
  }

  /** DELETE FROM channel_masks WHERE channel = name */
  function Without(rows: seq<MaskRow>, name: Name): seq<MaskRow> {
    if rows == [] then []
    else Without(rows[..|rows| - 1], name) + if rows[|rows| - 1].channel == name then [] else [rows[|rows| - 1]]
  }

  /** SELECT ... WHERE channel = name ORDER BY rowid */
  function RowsOf(rows: seq<MaskRow>, name: Name): seq<MaskRow> {
    if rows == [] then []
    else RowsOf(rows[..|rows| - 1], name) + if rows[|rows| - 1].channel == name then [rows[|rows| - 1]] else []
  }

  predicate Savable(channel: CString, s: State) {
    && TextFits(channel, NAME_MAX) && TextFits(s.key, KEY_MAX)
    && TextFits(s.limitRedirect, NAME_MAX) && TextFits(s.banRedirect, NAME_MAX)
    && s.userLimit <= INT64_MAX && s.joinCount <= UINT_MAX && s.joinSeconds <= UINT_MAX
  }

  /** chanserv_persist_save as a transaction: the new database, or none when it is rolled back. */
  function Save(db: Db, channel: CString, s: State): Option<Db> {
    var name := Folded(channel);
    if !Savable(channel, s) || name !in db.registered then None
    else
      var bans := SaveMasks(Without(db.rows, name), name, Ban, s.bans);
      if bans.None? then None
      else
        var exceptions := SaveMasks(bans.value, name, Exception, s.exceptions);
        if exceptions.None? then None
        else
          var invexes := SaveMasks(exceptions.value, name, Invex, s.invexes);
          if invexes.None? then None
          else Some(Db(db.registered,
                       db.runtime[name := s.(bans := [], exceptions := [], invexes := [])],
                       invexes.value))
  }

  function ListOf(s: State, kind: Kind): seq<Mask> {
    match kind
    case Ban => s.bans
    case Exception => s.exceptions
    case Invex => s.invexes
  }

  function WithList(s: State, kind: Kind, list: seq<Mask>): State {
    match kind
    case Ban => s.(bans := list)
    case Exception => s.(exceptions := list)
    case Invex => s.(invexes := list)
  }

  /** restore_masks: add the rows one by one, in rowid order. */
  function LoadMasks(s: State, rows: seq<MaskRow>): Option<State>
    decreases |rows|
  {
    if rows == [] then Some(s)
    else if rows[0].mask == [] || !TextFits(rows[0].mask, MASK_MAX) then None
    else
      var added := Add(ListOf(s, rows[0].kind), rows[0].mask, rows[0].authorized);
      if added.Ok? then LoadMasks(WithList(s, rows[0].kind, added.list), rows[1..]) else None
  }

  /** chanserv_persist_restore: the restored state, or none when everything is cleared again. */
  function Restore(db: Db, channel: CString): Option<State> {
    var name := Folded(channel);
    if !TextFits(channel, NAME_MAX) then None
    else if name !in db.runtime then LoadMasks(CLEARED, RowsOf(db.rows, name))
    else if !Savable(channel, db.runtime[name]) then None
    else LoadMasks(db.runtime[name].(bans := [], exceptions := [], invexes := []), RowsOf(db.rows, name))
  }

  // ---------------------------------------------------------------- round trip

  /** The rows a list is saved as. */
  function AsRows(name: Name, kind: Kind, list: seq<Mask>): (rows: seq<MaskRow>)
    ensures |rows| == |list|
    ensures forall i :: 0 <= i < |list| ==> rows[i] == MaskRow(name, kind, list[i].mask, list[i].authorized)
  {
    seq(|list|, i requires 0 <= i < |list| => MaskRow(name, kind, list[i].mask, list[i].authorized))
  }

  lemma AsRowsCons(name: Name, kind: Kind, list: seq<Mask>)
    requires list != []
    ensures AsRows(name, kind, list) ==
            [MaskRow(name, kind, list[0].mask, list[0].authorized)] + AsRows(name, kind, list[1..])
  {
  }

  lemma Regroup(a: seq<MaskRow>, b: seq<MaskRow>, c: seq<MaskRow>)
    ensures a + (b + c) == a + b + c
  {
  }

  ghost predicate Insertable(rows: seq<MaskRow>, name: Name, kind: Kind, list: seq<Mask>) {
    && Distinct(list)
    && forall i :: 0 <= i < |list| ==> TextFits(list[i].mask, MASK_MAX) && !Taken(rows, name, kind, list[i].mask)
  }

  /** A list is inserted exactly when its masks fit and are distinct and new, and then in order. */
  lemma {:induction false} SaveMasksExact(rows: seq<MaskRow>, name: Name, kind: Kind, list: seq<Mask>)
    ensures SaveMasks(rows, name, kind, list).Some? <==> Insertable(rows, name, kind, list)
    ensures SaveMasks(rows, name, kind, list).Some? ==>
              SaveMasks(rows, name, kind, list).value == rows + AsRows(name, kind, list)
    decreases |list|
  {
    if list != [] {
      hide Taken, Insertable, TextFits, AsRows;
      var head := MaskRow(name, kind, list[0].mask, list[0].authorized);
      var rest, next := list[1..], rows + [head];
      SaveMasksExact(next, name, kind, rest);
      InsertableCons(rows, name, kind, list);
      AsRowsCons(name, kind, list);
      Regroup(rows, [head], AsRows(name, kind, rest));
    } else {
      assert rows + AsRows(name, kind, list) == rows;
    }
  }

  lemma TakenAppend(rows: seq<MaskRow>, row: MaskRow)
    ensures forall name, kind, mask :: Taken(rows + [row], name, kind, mask) <==>
              Taken(rows, name, kind, mask) || (row.channel == name && row.kind == kind && row.mask == mask)
  {
    forall name, kind, mask
      ensures Taken(rows + [row], name, kind, mask) <==>
              Taken(rows, name, kind, mask) || (row.channel == name && row.kind == kind && row.mask == mask)
    {
      var all := rows + [row];
      if Taken(rows, name, kind, mask) {
        var i :| 0 <= i < |rows| && rows[i].channel == name && rows[i].kind == kind && rows[i].mask == mask;
        assert all[i] == rows[i];
      }
      if row.channel == name && row.kind == kind && row.mask == mask {
        assert all[|rows|] == row;
      }
    }
  }

  lemma InsertableCons(rows: seq<MaskRow>, name: Name, kind: Kind, list: seq<Mask>)
    requires list != []
    ensures var next := rows + [MaskRow(name, kind, list[0].mask, list[0].authorized)];
            Insertable(rows, name, kind, list) <==>
              && TextFits(list[0].mask, MASK_MAX) && !Taken(rows, name, kind, list[0].mask)
              && Insertable(next, name, kind, list[1..])
  {
    hide Taken;
    var head := MaskRow(name, kind, list[0].mask, list[0].authorized);
    TakenAppend(rows, head);
    var rest := list[1..];
    assert forall i :: 0 <= i < |rest| ==> rest[i] == list[i + 1];
    if Insertable(rows + [head], name, kind, rest) && TextFits(list[0].mask, MASK_MAX) &&
        !Taken(rows, name, kind, list[0].mask) {
      forall i | 0 <= i < |list| ensures TextFits(list[i].mask, MASK_MAX) && !Taken(rows, name, kind, list[i].mask) {
        if i > 0 {
          assert rest[i - 1] == list[i];
        }
      }
      forall i, j | 0 <= i < j < |list| ensures list[i].mask != list[j].mask {
        assert rest[j - 1] == list[j];
        if i > 0 {
          assert rest[i - 1] == list[i];
        }
      }
    }
  }

  /** What the database takes for a list, whatever else it holds. */
  ghost predicate Storable(list: seq<Mask>) {
    Distinct(list) && forall i :: 0 <= i < |list| ==> TextFits(list[i].mask, MASK_MAX)
  }

  /** What a restore takes for a list. */
  ghost predicate Loadable(list: seq<Mask>) {
    |list| <= MASK_LIST_MAX && forall i :: 0 <= i < |list| ==> list[i].mask != []
  }

  lemma {:induction false} RowsConcat(a: seq<MaskRow>, b: seq<MaskRow>, name: Name)
    ensures RowsOf(a + b, name) == RowsOf(a, name) + RowsOf(b, name)
    decreases |b|
  {
    if b == [] {
      assert a + b == a;
    } else {
      assert (a + b)[..|a + b| - 1] == a + b[..|b| - 1];
      RowsConcat(a, b[..|b| - 1], name);
    }
  }

  lemma {:induction false} RowsDeleted(rows: seq<MaskRow>, name: Name)
    ensures RowsOf(Without(rows, name), name) == []
    ensures forall i :: 0 <= i < |Without(rows, name)| ==> Without(rows, name)[i].channel != name
  {
    if rows != [] {
      var front, last := rows[..|rows| - 1], rows[|rows| - 1];
      RowsDeleted(front, name);
      if last.channel != name {
        RowsConcat(Without(front, name), [last], name);
        assert [last][..0] == [];
      } else {
        assert Without(rows, name) == Without(front, name);
      }
    }
  }

  lemma {:induction false} RowsSaved(name: Name, kind: Kind, list: seq<Mask>)
    ensures RowsOf(AsRows(name, kind, list), name) == AsRows(name, kind, list)
    decreases |list|
  {
    if list != [] {
      var rows, front := AsRows(name, kind, list), list[..|list| - 1];
      assert rows[..|rows| - 1] == AsRows(name, kind, front);
      RowsSaved(name, kind, front);
    }
  }

  /** No row of the channel, or only rows of other kinds, stands in the way of a list. */
  lemma InsertableFree(rows: seq<MaskRow>, name: Name, kind: Kind, list: seq<Mask>)
    requires forall i :: 0 <= i < |rows| ==> rows[i].channel != name || rows[i].kind != kind
    ensures Insertable(rows, name, kind, list) <==> Storable(list)
  {
  }

  /** The rows of a channel after a save. */
  function SavedRows(db: Db, name: Name, s: State): seq<MaskRow> {
    Without(db.rows, name) + AsRows(name, Ban, s.bans) + AsRows(name, Exception, s.exceptions) +
        AsRows(name, Invex, s.invexes)
  }

  /** A save goes through exactly when the fields fit, the channel is registered and each list is storable. */
  lemma SaveExact(db: Db, channel: CString, s: State)
    ensures Save(db, channel, s).Some? <==>
              Savable(channel, s) && Folded(channel) in db.registered
              && Storable(s.bans) && Storable(s.exceptions) && Storable(s.invexes)
    ensures Save(db, channel, s).Some? ==>
              && Save(db, channel, s).value.rows == SavedRows(db, Folded(channel), s)
              && Save(db, channel, s).value.registered == db.registered
              && Save(db, channel, s).value.runtime ==
                  db.runtime[Folded(channel) := s.(bans := [], exceptions := [], invexes := [])]
  {
    hide Savable, Storable, SaveMasks, Insertable, Without;
    var name := Folded(channel);
    var one := Without(db.rows, name);
    var two := one + AsRows(name, Ban, s.bans);
    var three := two + AsRows(name, Exception, s.exceptions);
    RowsDeleted(db.rows, name);
    SaveMasksExact(one, name, Ban, s.bans);
    InsertableFree(one, name, Ban, s.bans);
    SaveMasksExact(two, name, Exception, s.exceptions);
    InsertableFree(two, name, Exception, s.exceptions);
    SaveMasksExact(three, name, Invex, s.invexes);
    InsertableFree(three, name, Invex, s.invexes);
  }

  /** Rows of other channels are untouched by a save. */
  lemma {:induction false} OthersKept(rows: seq<MaskRow>, name: Name, other: Name)
    requires other != name
    ensures RowsOf(Without(rows, name), other) == RowsOf(rows, other)
  {
    if rows != [] {
      var front, last := rows[..|rows| - 1], rows[|rows| - 1];
      OthersKept(front, name, other);
      if last.channel != name {
        RowsConcat(Without(front, name), [last], other);
        assert [last][..0] == [];
        assert rows == front + [last];
        RowsConcat(front, [last], other);
      } else {
        assert Without(rows, name) == Without(front, name);
        assert RowsOf(rows, other) == RowsOf(front, other);
      }
    }
  }

  /** No mask of the list is in the accumulated list. */
  ghost predicate Apart(list: seq<Mask>, acc: seq<Mask>) {
    forall i, j :: 0 <= i < |list| && 0 <= j < |acc| ==> list[i].mask != acc[j].mask
  }

  /** A list can be put in front of the accumulated one: all masks are proper and there is room. */
  ghost predicate Room(list: seq<Mask>, acc: seq<Mask>) {
    list == [] || (|acc| + |list| <= MASK_LIST_MAX && forall i :: 0 <= i < |list| ==> list[i].mask != [])
  }

  /** Loading the rows of one list puts it in front of what is there, reversed, or fails as a whole. */
  lemma {:induction false} LoadList(s: State, name: Name, kind: Kind, list: seq<Mask>, more: seq<MaskRow>)
    requires Storable(list) && Apart(list, ListOf(s, kind))
    ensures LoadMasks(s, AsRows(name, kind, list) + more) ==
            if Room(list, ListOf(s, kind))
                then LoadMasks(WithList(s, kind, Reversed(list) + ListOf(s, kind)), more) else None
    decreases |list|
  {
    var acc := ListOf(s, kind);
    if list == [] {
      assert AsRows(name, kind, list) + more == more;
      assert Reversed(list) + acc == acc;
      assert WithList(s, kind, acc) == s;
    } else {
      hide Reversed, Position, AsRows, Storable, Apart, Room, LoadMasks;
      var head, rest := list[0], list[1..];
      LoadHead(s, name, kind, list, more);
      RoomCons(list, acc);
      if head.mask != [] && |acc| < MASK_LIST_MAX {
        var s' := WithList(s, kind, [head] + acc);
        ApartCons(list, acc);
        LoadList(s', name, kind, rest, more);
        ReversedCons(list, acc);
        assert WithList(s', kind, Reversed(rest) + ([head] + acc)) == WithList(s, kind, Reversed(list) + acc);
      }
    }
  }

  /** The first row of a list goes to the head, or stops the load. */
  lemma LoadHead(s: State, name: Name, kind: Kind, list: seq<Mask>, more: seq<MaskRow>)
    requires list != [] && Storable(list) && Apart(list, ListOf(s, kind))
    ensures var acc := ListOf(s, kind);
            LoadMasks(s, AsRows(name, kind, list) + more) ==
            if list[0].mask != [] && |acc| < MASK_LIST_MAX
            then LoadMasks(WithList(s, kind, [list[0]] + acc), AsRows(name, kind, list[1..]) + more) else None
  {
    hide Position, AsRows;
    var rows, acc := AsRows(name, kind, list) + more, ListOf(s, kind);
    AsRowsCons(name, kind, list);
    assert rows[0] == MaskRow(name, kind, list[0].mask, list[0].authorized);
    assert rows[1..] == AsRows(name, kind, list[1..]) + more;
    assert Position(acc, list[0].mask) == |acc|;
    assert list[0] == Mask(list[0].mask, list[0].authorized);
  }

  lemma RoomCons(list: seq<Mask>, acc: seq<Mask>)
    requires list != []
    ensures Room(list, acc) <==> list[0].mask != [] && |acc| < MASK_LIST_MAX && Room(list[1..], [list[0]] + acc)
  {
    var rest := list[1..];
    assert forall i :: 0 <= i < |rest| ==> rest[i] == list[i + 1];
    if list[0].mask != [] && (forall i :: 0 <= i < |rest| ==> rest[i].mask != []) {
      forall i | 0 <= i < |list| ensures list[i].mask != [] {
        assert i > 0 ==> list[i] == rest[i - 1];
      }
    }
  }

  lemma ApartCons(list: seq<Mask>, acc: seq<Mask>)
    requires list != [] && Storable(list) && Apart(list, acc)
    ensures Storable(list[1..]) && Apart(list[1..], [list[0]] + acc)
  {
  }

  lemma ReversedCons(list: seq<Mask>, acc: seq<Mask>)
    requires list != []
    ensures Reversed(list[1..]) + ([list[0]] + acc) == Reversed(list) + acc
  {
  }

  lemma RowsAfterSave(db: Db, name: Name, s: State)
    ensures RowsOf(SavedRows(db, name, s), name)
            == AsRows(name, Ban, s.bans) +
                (AsRows(name, Exception, s.exceptions) + (AsRows(name, Invex, s.invexes) + []))
  {
    hide RowsOf, Without;
    var b, e, i := AsRows(name, Ban, s.bans), AsRows(name, Exception, s.exceptions), AsRows(name, Invex, s.invexes);
    var w := Without(db.rows, name);
    RowsDeleted(db.rows, name);
    RowsSaved(name, Ban, s.bans);
    RowsSaved(name, Exception, s.exceptions);
    RowsSaved(name, Invex, s.invexes);
    RowsConcat(w, b, name);
    RowsConcat(w + b, e, name);
    RowsConcat(w + b + e, i, name);
  }

  /** Loading three saved lists gives each of them reversed, exactly when a restore takes all three. */
  lemma LoadThree(base: State, name: Name, s: State)
    requires Storable(s.bans) && Storable(s.exceptions) && Storable(s.invexes)
    requires base == s.(bans := [], exceptions := [], invexes := [])
    ensures LoadMasks(base, AsRows(name, Ban, s.bans) +
              (AsRows(name, Exception, s.exceptions) + (AsRows(name, Invex, s.invexes) + [])))
            == if Loadable(s.bans) && Loadable(s.exceptions) && Loadable(s.invexes) then Some(Flipped(s)) else None
  {
    hide LoadMasks, AsRows, Reversed;
    var e, i := AsRows(name, Exception, s.exceptions), AsRows(name, Invex, s.invexes);
    LoadList(base, name, Ban, s.bans, e + (i + []));
    assert Reversed(s.bans) + [] == Reversed(s.bans);
    var two := base.(bans := Reversed(s.bans));
    LoadList(two, name, Exception, s.exceptions, i + []);
    assert Reversed(s.exceptions) + [] == Reversed(s.exceptions);
    var three := two.(exceptions := Reversed(s.exceptions));
    LoadList(three, name, Invex, s.invexes, []);
    assert Reversed(s.invexes) + [] == Reversed(s.invexes);
    NothingToLoad(three.(invexes := Reversed(s.invexes)));
  }

  lemma NothingToLoad(s: State)
    ensures LoadMasks(s, []) == Some(s)
  {
  }

  /**
   The round trip: after a successful save a restore succeeds exactly when no list
   is over the limit and no mask is empty, and then it returns the same fields and
   every list reversed with its flags.
   */
  lemma RoundTrip(db: Db, channel: CString, s: State)
    requires Save(db, channel, s).Some?
    ensures var restored := Restore(Save(db, channel, s).value, channel);
            restored == if Loadable(s.bans) && Loadable(s.exceptions) && Loadable(s.invexes) then Some(Flipped(s))
                else None
  {
    hide Save, LoadMasks, Storable, AsRows, Flipped, SavedRows, RowsOf, Loadable;
    var name := Folded(channel);
    SaveExact(db, channel, s);
    RowsAfterSave(db, name, s);
    LoadThree(s.(bans := [], exceptions := [], invexes := []), name, s);
  }

  /** What the server built itself can always be saved, unless a mask has a line break in it. */
  lemma GoodSaves(db: Db, channel: CString, s: State)
    requires Savable(channel, s) && Folded(channel) in db.registered
    requires GoodList(s.bans) && GoodList(s.exceptions) && GoodList(s.invexes)
    ensures Save(db, channel, s).Some? <==> NoBreaks(s.bans) && NoBreaks(s.exceptions) && NoBreaks(s.invexes)
  {
    hide Save, Savable, Folded;
    SaveExact(db, channel, s);
  }

  ghost predicate NoBreaks(list: seq<Mask>) {
    forall i :: 0 <= i < |list| ==> CR !in list[i].mask && NL !in list[i].mask
  }

  /** For lists the server built itself the round trip works, keeps every decision, and twice is the identity. */
  lemma RoundTripKeepsAccess(db: Db, channel: CString, s: State, identity: CString)
    requires Save(db, channel, s).Some?
    requires GoodList(s.bans) && GoodList(s.exceptions) && GoodList(s.invexes)
    ensures var db1 := Save(db, channel, s).value;
            && Restore(db1, channel) == Some(Flipped(s))
            && (Banned(Flipped(s), identity) <==> Banned(s, identity))
            && (BannedProtected(Flipped(s), identity) <==> BannedProtected(s, identity))
            && (Invited(Flipped(s), identity) <==> Invited(s, identity))
            && Save(db1, channel, Flipped(s)).Some?
            && Restore(Save(db1, channel, Flipped(s)).value, channel) == Some(s)
  {
    hide Save, Restore, Banned, BannedProtected, Invited, Storable, Loadable, GoodList, Reversed, SavedRows, Folded;
    var db1 := Save(db, channel, s).value;
    GoodLoads(s.bans);
    GoodLoads(s.exceptions);
    GoodLoads(s.invexes);
    RoundTrip(db, channel, s);
    SameDecisions(s, identity);
    SaveExact(db, channel, s);
    SaveExact(db1, channel, Flipped(s));
    StorableReversed(s.bans);
    StorableReversed(s.exceptions);
    StorableReversed(s.invexes);
    RoundTrip(db1, channel, Flipped(s));
    ReversedTwice(s.bans);
    ReversedTwice(s.exceptions);
    ReversedTwice(s.invexes);
  }

  lemma StorableReversed(list: seq<Mask>)
    requires Storable(list)
    ensures Storable(Reversed(list))
  {
    hide Reversed;
  }

  /** A save changes nothing about what a restore of another channel gives. */
  lemma OthersUnchanged(db: Db, channel: CString, s: State, other: CString)
    requires Save(db, channel, s).Some? && Folded(other) != Folded(channel)
    ensures Restore(Save(db, channel, s).value, other) == Restore(db, other)
  {
    hide Save, LoadMasks, RowsOf, Without, Storable;
    var name, rows := Folded(channel), db.rows;
    var w := Without(rows, name);
    var b, e, i := AsRows(name, Ban, s.bans), AsRows(name, Exception, s.exceptions), AsRows(name, Invex, s.invexes);
    SaveExact(db, channel, s);
    OthersKept(rows, name, Folded(other));
    NoRows(b, Folded(other));
    NoRows(e, Folded(other));
    NoRows(i, Folded(other));
    RowsConcat(w, b, Folded(other));
    RowsConcat(w + b, e, Folded(other));
    RowsConcat(w + b + e, i, Folded(other));
    assert RowsOf(Save(db, channel, s).value.rows, Folded(other)) == RowsOf(rows, Folded(other)) + [] + [] + [];
    assert RowsOf(rows, Folded(other)) + [] + [] + [] == RowsOf(rows, Folded(other));
  }

  lemma {:induction false} NoRows(rows: seq<MaskRow>, other: Name)
    requires forall i :: 0 <= i < |rows| ==> rows[i].channel != other
    ensures RowsOf(rows, other) == []
  {
    if rows != [] {
      NoRows(rows[..|rows| - 1], other);
    }
  }

  // ---------------------------------------------------------------- the code

  class Channel {
    const name: CString
    var key: CString
    var userLimit: nat
    var joinCount: nat
    var joinSeconds: nat
    var limitRedirect: CString
    var banRedirect: CString
    const bans: MaskList
    const exceptions: MaskList
    const invexes: MaskList

    ghost predicate Valid()
      reads this, bans, exceptions, invexes
    {
      && bans != exceptions && bans != invexes && exceptions != invexes
      && GoodList(bans.entries) && GoodList(exceptions.entries) && GoodList(invexes.entries)
    }

    /** The persistent state of the channel. */
    function Kept(): State
      reads this, bans, exceptions, invexes
    {
      State(key, userLimit, joinCount, joinSeconds, limitRedirect, banRedirect, bans.entries, exceptions.entries,
          invexes.entries)
    }

    constructor (name: CString)
      ensures Valid() && this.name == name && Kept() == CLEARED
      ensures fresh(bans) && fresh(exceptions) && fresh(invexes)
    {
      this.name := name;
      key, userLimit, joinCount, joinSeconds, limitRedirect, banRedirect := [], 0, 0, 0, [], [];
      bans := new MaskList();
      exceptions := new MaskList();
      invexes := new MaskList();
    }

    /** The reset at the head and at the failing end of chanserv_persist_restore. */
    method Clear()
      requires Valid()
      modifies this, bans, exceptions, invexes
      ensures Valid() && Kept() == CLEARED
    {
      key, userLimit, joinCount, joinSeconds, limitRedirect, banRedirect := [], 0, 0, 0, [], [];
      bans.entries, exceptions.entries, invexes.entries := [], [], [];
    }

    /** One row of restore_masks. */
    method AddRow(row: MaskRow) returns (rc: int)
      requires Valid()
      modifies bans, exceptions, invexes
      ensures Valid()
      ensures rc == 0 <==> Add(ListOf(old(Kept()), row.kind), row.mask, row.authorized).Ok?
      ensures rc == 0 ==>
                Kept() == WithList(old(Kept()), row.kind,
                    Add(ListOf(old(Kept()), row.kind), row.mask, row.authorized).list)
    {
      hide Add, GoodList;
      match row.kind
      case Ban => rc := bans.AddAuthorized(row.mask, row.authorized, true);
      case Exception => rc := exceptions.AddAuthorized(row.mask, row.authorized, true);
      case Invex => rc := invexes.AddAuthorized(row.mask, row.authorized, true);
    }

    /** restore_masks: the rows of the channel, added one by one. */
    method AddRows(rows: seq<MaskRow>) returns (ok: bool)
      requires Valid()
      modifies bans, exceptions, invexes
      ensures Valid()
      ensures ok <==> LoadMasks(old(Kept()), rows).Some?
      ensures ok ==> LoadMasks(old(Kept()), rows) == Some(Kept())
    {
      hide Add, ListOf, WithList, GoodList, TextFits;
      assert rows[0..] == rows;
      for i := 0 to |rows|
        invariant Valid()
        invariant LoadMasks(old(Kept()), rows) == LoadMasks(Kept(), rows[i..])
      {
        assert rows[i..][0] == rows[i] && rows[i..][1..] == rows[i + 1..];
        if rows[i].mask == [] || !TextFits(rows[i].mask, MASK_MAX) {
          return false;
        }
        var rc := AddRow(rows[i]);
        if rc != 0 {
          return false;
        }
      }
      ok := true;
    }
  }

  /** How a COMMIT ends: durable, failed and undone, or failed with the transaction left open. */
  datatype Commit = Committed | Undone | LeftOpen

  /**
   The shared connection: the durable database and, after a failed COMMIT, the
   uncommitted state an open transaction still shows to this connection.
   */
  class Store {
    var db: Db
    var open: Option<Db>

    constructor (db: Db)
      ensures this.db == db && open == None
    {
      this.db, open := db, None;
    }

    /** What statements on the connection see. */
    function Visible(): Db
      reads this
    {
      if open.Some? then open.value else db
    }

    /** save_masks on the working copy of a transaction. */
    method InsertMasks(rows: seq<MaskRow>, name: Name, kind: Kind, list: seq<Mask>) returns (r: Option<seq<MaskRow>>)
      ensures r == SaveMasks(rows, name, kind, list)
    {
      var out := rows;
      assert list[0..] == list;
      for i := 0 to |list|
        invariant SaveMasks(rows, name, kind, list) == SaveMasks(out, name, kind, list[i..])
      {
        assert list[i..][0] == list[i] && list[i..][1..] == list[i + 1..];
        if !TextFits(list[i].mask, MASK_MAX) || Taken(out, name, kind, list[i].mask) {
          return None;
        }
        out := out + [MaskRow(name, kind, list[i].mask, list[i].authorized)];
      }
      r := Some(out);
    }

    /**
     chanserv_persist_save: commits the whole new state or leaves the database as it
     was; working says that no statement failed for a reason of its own. A COMMIT that
     fails without being undone leaves its transaction open, and every later save is
     refused because no new one can begin.
     */
    method SaveChannel(channel: Channel, working: bool, commit: Commit) returns (rc: int)
      requires channel.Valid()
      modifies this
      ensures var after := Save(old(db), channel.name, channel.Kept());
              && rc == (if working && old(open).None? && after.Some? && commit == Committed then 0 else -1)
              && db == (if rc == 0 then after.value else old(db))
              && open == (if working && old(open).None? && after.Some? && commit == LeftOpen then after else old(open))
    {
      hide SaveMasks;
      var s := channel.Kept();
      if !Savable(channel.name, s) || !working || open.Some? {
        return -1;
      }
      var name := Folded(channel.name);
      if name !in db.registered {
        return -1;
      }
      var runtime := db.runtime[name := s.(bans := [], exceptions := [], invexes := [])];
      var rows := InsertMasks(Without(db.rows, name), name, Ban, s.bans);
      if rows.None? {
        return -1;
      }
      rows := InsertMasks(rows.value, name, Exception, s.exceptions);
      if rows.None? {
        return -1;
      }
      rows := InsertMasks(rows.value, name, Invex, s.invexes);
      if rows.None? {
        return -1;
      }
      var saved := Db(db.registered, runtime, rows.value);
      if commit == LeftOpen {
        open := Some(saved);
      }
      if commit != Committed {
        return -1;
      }
      db := saved;
      rc := 0;
    }

    /**
     chanserv_persist_restore: the channel is as the database has it, or cleared.
     It is left alone when its name does not fit or the database does not open.
     */
    method RestoreChannel(channel: Channel, ready: bool, working: bool) returns (rc: int)
      requires channel.Valid()
      modifies channel, channel.bans, channel.exceptions, channel.invexes
      ensures channel.Valid() && db == old(db) && open == old(open)
      ensures rc == if ready && working && Restore(Visible(), channel.name).Some? then 0 else -1
      ensures rc == 0 ==> Restore(Visible(), channel.name) == Some(channel.Kept())
      ensures rc != 0 ==>
                channel.Kept() == if ready && TextFits(channel.name, NAME_MAX) then CLEARED else old(channel.Kept())
    {
      hide LoadMasks, GoodList, TextFits, RowsOf;
      if !TextFits(channel.name, NAME_MAX) || !ready {
        return -1;
      }
      channel.Clear();
      if !working {
        return -1;
      }
      var name, view := Folded(channel.name), Visible();
      if name in view.runtime {
        var kept := view.runtime[name];
        if !Savable(channel.name, kept) {
          return -1;
        }
        channel.key, channel.userLimit, channel.joinCount := kept.key, kept.userLimit, kept.joinCount;
        channel.joinSeconds, channel.limitRedirect, channel.banRedirect :=
            kept.joinSeconds, kept.limitRedirect, kept.banRedirect;
      }
      var ok := channel.AddRows(RowsOf(view.rows, name));
      if !ok {
        channel.Clear();
        return -1;
      }
      rc := 0;
    }
  }

  /** Save and restore of one channel object through the database: what was there comes back, lists reversed. */
  method SaveThenRestore(store: Store, channel: Channel, again: Channel) returns (saved: int, restored: int)
    requires channel.Valid() && again.Valid() && again.name == channel.name
    requires {again, again.bans, again.exceptions, again.invexes}
             !! {channel, channel.bans, channel.exceptions, channel.invexes}
    modifies store, again, again.bans, again.exceptions, again.invexes
    ensures channel.Kept() == old(channel.Kept())
    ensures var after := Save(old(store.db), channel.name, channel.Kept());
            && (saved == 0 <==> old(store.open).None? && after.Some?)
            && store.db == if saved == 0 then after.value else old(store.db)
    ensures saved == 0 ==> restored == 0 && again.Kept() == Flipped(channel.Kept())
    ensures saved != 0 ==> restored == -1 && again.Kept() == old(again.Kept())
  {
    hide Save, Restore, GoodList, Flipped;
    saved := store.SaveChannel(channel, true, Committed);
    restored := -1;
    if saved == 0 {
      GoodLoads(channel.bans.entries);
      GoodLoads(channel.exceptions.entries);
      GoodLoads(channel.invexes.entries);
      RoundTrip(old(store.db), channel.name, channel.Kept());
      restored := store.RestoreChannel(again, true, true);
    }
  }

  lemma GoodLoads(list: seq<Mask>)
    requires GoodList(list)
    ensures Loadable(list) && Loadable(Reversed(list))
  {
    hide Reversed;
  }
}
