/** The player roster of src/mc/presence.ts. The `players` map from xuid to
    player record is kept as a sequence in the map's insertion order, with at
    most one record per xuid; `set` on a present key replaces the record in
    place, `delete` removes it. Events the class emits are returned to the
    caller in emission order, and every `Date.now()` is a `now` parameter. */
module PresenceRoster {
  import opened Text

  datatype PlayerState = PlayerState(xuid: string, username: string, lastSeen: int)

  datatype PresenceEvent =
    | PlayerAdded(username: string, xuid: string)
    | PlayerRemoved(username: string, xuid: string)

  /** The map invariant: no two records share a xuid. */
  predicate DistinctXuids(ps: seq<PlayerState>) {
    forall i, j :: 0 <= i < j < |ps| ==> ps[i].xuid != ps[j].xuid
  }

  /** The keys in iteration order. */
  function Xuids(ps: seq<PlayerState>): (r: seq<string>)
    ensures |r| == |ps| && forall i :: 0 <= i < |ps| ==> r[i] == ps[i].xuid
  {
    if ps == [] then [] else [ps[0].xuid] + Xuids(ps[1..])
  }

  /** `players.get(xuid)`. */
  function Lookup(ps: seq<PlayerState>, xuid: string): Option<PlayerState> {
    if ps == [] then None
    else if ps[0].xuid == xuid then Some(ps[0])
    else Lookup(ps[1..], xuid)
  }

  /** `players.set(st.xuid, st)`: replaces the record in place, or appends. */
  function Put(ps: seq<PlayerState>, st: PlayerState): seq<PlayerState> {
    if ps == [] then [st]
    else if ps[0].xuid == st.xuid then [st] + ps[1..]
    else [ps[0]] + Put(ps[1..], st)
  }

  /** `players.delete(xuid)`. */
  function Delete(ps: seq<PlayerState>, xuid: string): seq<PlayerState> {
    if ps == [] then []
    else if ps[0].xuid == xuid then ps[1..]
    else [ps[0]] + Delete(ps[1..], xuid)
  }

  /** `p.lastSeen = now` on the record stored for `xuid`, if there is one. */
  function Touched(ps: seq<PlayerState>, xuid: string, now: int): seq<PlayerState> {
    if ps == [] then []
    else if ps[0].xuid == xuid then [ps[0].(lastSeen := now)] + ps[1..]
    else [ps[0]] + Touched(ps[1..], xuid, now)
  }

  /** The prune test: strictly more than `expirationMs` since last seen. */
  predicate Expired(p: PlayerState, now: int, expirationMs: int) {
    now - p.lastSeen > expirationMs
  }

  /** The records prune keeps, in order. */
  function Survivors(ps: seq<PlayerState>, now: int, expirationMs: int): seq<PlayerState> {
    if ps == [] then []
    else (if Expired(ps[0], now, expirationMs) then [] else [ps[0]])
         + Survivors(ps[1..], now, expirationMs)
  }

  /** The events prune emits, one per removed record, in order. */
  function PruneEvents(ps: seq<PlayerState>, now: int, expirationMs: int): seq<PresenceEvent> {
    if ps == [] then []
    else (if Expired(ps[0], now, expirationMs) then [PlayerRemoved(ps[0].username, ps[0].xuid)] else [])
         + PruneEvents(ps[1..], now, expirationMs)
  }

  /** `Array.from(players.values()).map((p) => p.username)`. */
  function Usernames(ps: seq<PlayerState>): (r: seq<string>)
    ensures |r| == |ps| && forall i :: 0 <= i < |ps| ==> r[i] == ps[i].username
  {
    if ps == [] then [] else [ps[0].username] + Usernames(ps[1..])
  }

  class Presence {
    const expirationMs: int
    var players: seq<PlayerState>

    ghost predicate Valid()
      reads this
    {
      DistinctXuids(players)
    }

    constructor (expirationMs: int)
      ensures this.expirationMs == expirationMs && players == [] && Valid()
    {
      this.expirationMs := expirationMs;
      players := [];
    }

    /** `addPlayer(xuid, username)`: stores the record and announces the
        player only when the xuid was not there yet. */
    method AddPlayer(xuid: string, username: string, now: int) returns (events: seq<PresenceEvent>)
      requires Valid()
      modifies this
      ensures Valid()
      ensures players == Put(old(players), PlayerState(xuid, username, now))
      ensures events == if Lookup(old(players), xuid).None? then [PlayerAdded(username, xuid)] else []
    {
      var existing := Lookup(players, xuid);
      PutKeepsDistinct(players, PlayerState(xuid, username, now));
      players := Put(players, PlayerState(xuid, username, now));
      events := [];
      if existing.None? {
        events := [PlayerAdded(username, xuid)];
      }
    }

    /** `removePlayer(xuid)`: deletes a present record and announces it with
        the stored username; an absent xuid is a no-op. */
    method RemovePlayer(xuid: string) returns (events: seq<PresenceEvent>)
      requires Valid()
      modifies this
      ensures Valid()
      ensures players == Delete(old(players), xuid)
      ensures events == match Lookup(old(players), xuid)
                          case Some(p) => [PlayerRemoved(p.username, xuid)]
                          case None => []
    {
      var existing := Lookup(players, xuid);
      events := [];
      match existing
      case Some(p) =>
        DeleteKeepsDistinct(players, xuid);
        players := Delete(players, xuid);
        events := [PlayerRemoved(p.username, xuid)];
      case None =>
        DeleteAbsent(players, xuid);
    }

    /** `touch(xuid)`: refreshes `lastSeen` of a present record. */
    method Touch(xuid: string, now: int)
      requires Valid()
      modifies this
      ensures Valid()
      ensures players == Touched(old(players), xuid, now)
    {
      TouchedKeepsXuids(players, xuid, now);
      players := Touched(players, xuid, now);
    }

    /** `prune()`: walks the entries in order and deletes each expired one
        as it goes, emitting one event per deletion. */
    method Prune(now: int) returns (events: seq<PresenceEvent>)
      requires Valid()
      modifies this
      ensures Valid()
      ensures players == Survivors(old(players), now, expirationMs)
      ensures events == PruneEvents(old(players), now, expirationMs)
    {
      var entries := players;
      assert DistinctXuids(entries);
      events := [];
      var i := 0;
      while i < |entries|
        invariant 0 <= i <= |entries| && entries == old(players)
        invariant players == Survivors(entries[..i], now, expirationMs) + entries[i..]
        invariant events == PruneEvents(entries[..i], now, expirationMs)
      {
        var p := entries[i];
        PruneAdvance(entries, i, now, expirationMs);
        if Expired(p, now, expirationMs) {
          players := Delete(players, p.xuid);
          events := events + [PlayerRemoved(p.username, p.xuid)];
        }
        i := i + 1;
      }
      assert entries[..i] == entries && entries[i..] == [];
      assert players == Survivors(entries, now, expirationMs) + [];
      SurvivorsKeepDistinct(entries, now, expirationMs);
    }

    /** `getRoster()`: prunes, then lists the usernames in map order. */
    method GetRoster(now: int) returns (roster: seq<string>, events: seq<PresenceEvent>)
      requires Valid()
      modifies this
      ensures Valid()
      ensures players == Survivors(old(players), now, expirationMs)
      ensures events == PruneEvents(old(players), now, expirationMs)
      ensures roster == Usernames(players)
    {
      events := Prune(now);
      roster := Usernames(players);
    }
  }

  // ---------------------------------------------------------------------
  // The map operations
  // ---------------------------------------------------------------------

  /** `get` finds nothing exactly when no record has the xuid. */
  lemma {:induction false} LookupNone(ps: seq<PlayerState>, xuid: string)
    ensures Lookup(ps, xuid).None? <==> forall i :: 0 <= i < |ps| ==> ps[i].xuid != xuid
    decreases |ps|
  {
    if ps != [] {
      LookupNone(ps[1..], xuid);
      if ps[0].xuid != xuid {
        assert forall i :: 1 <= i < |ps| ==> ps[i] == ps[1..][i - 1];
      }
    }
  }

  /** With distinct xuids, `get` returns the one record stored for the xuid. */
  lemma {:induction false} LookupAt(ps: seq<PlayerState>, i: int)
    requires DistinctXuids(ps) && 0 <= i < |ps|
    ensures Lookup(ps, ps[i].xuid) == Some(ps[i])
    decreases |ps|
  {
    if i > 0 {
      assert ps[0].xuid != ps[i].xuid;
      assert ps[1..][i - 1] == ps[i];
      LookupAt(ps[1..], i - 1);
    }
  }

  /** `set` stores the new record for its xuid and leaves every other key's
      record as it was. */
  lemma {:induction false} PutLookup(ps: seq<PlayerState>, st: PlayerState, y: string)
    ensures Lookup(Put(ps, st), y) == if y == st.xuid then Some(st) else Lookup(ps, y)
    decreases |ps|
  {
    if ps != [] && ps[0].xuid != st.xuid {
      PutLookup(ps[1..], st, y);
    }
  }

  /** `set` on a present xuid replaces its record where it stands. */
  lemma {:induction false} PutPresent(ps: seq<PlayerState>, i: int, st: PlayerState)
    requires 0 <= i < |ps| && ps[i].xuid == st.xuid
    requires forall j :: 0 <= j < i ==> ps[j].xuid != st.xuid
    ensures Put(ps, st) == ps[i := st]
    decreases |ps|
  {
    if i > 0 {
      PutPresent(ps[1..], i - 1, st);
      assert ps[1..][i - 1 := st] == ps[i := st][1..];
      assert ps[i := st] == [ps[0]] + ps[i := st][1..];
    }
  }

  /** `set` on an absent xuid appends the record at the end. */
  lemma {:induction false} PutAbsent(ps: seq<PlayerState>, st: PlayerState)
    requires forall j :: 0 <= j < |ps| ==> ps[j].xuid != st.xuid
    ensures Put(ps, st) == ps + [st]
    decreases |ps|
  {
    if ps != [] {
      PutAbsent(ps[1..], st);
      assert ps + [st] == [ps[0]] + (ps[1..] + [st]);
    }
  }

  lemma PutKeepsDistinct(ps: seq<PlayerState>, st: PlayerState)
    requires DistinctXuids(ps)
    ensures DistinctXuids(Put(ps, st))
  {
    if i :| 0 <= i < |ps| && ps[i].xuid == st.xuid {
      PutPresent(ps, i, st);
    } else {
      PutAbsent(ps, st);
    }
  }

  /** `delete` of the first record with a xuid removes that record and keeps
      the others in order. */
  lemma {:induction false} DeleteAt(ps: seq<PlayerState>, i: int)
    requires 0 <= i < |ps| && forall j :: 0 <= j < i ==> ps[j].xuid != ps[i].xuid
    ensures Delete(ps, ps[i].xuid) == ps[..i] + ps[i + 1..]
    decreases |ps|
  {
    if i > 0 {
      DeleteAt(ps[1..], i - 1);
      assert ps[1..][..i - 1] == ps[1..i] && ps[1..][i..] == ps[i + 1..];
      assert ps[..i] == [ps[0]] + ps[1..i];
    }
  }

  /** `delete` of an absent xuid changes nothing. */
  lemma {:induction false} DeleteAbsent(ps: seq<PlayerState>, xuid: string)
    requires Lookup(ps, xuid).None?
    ensures Delete(ps, xuid) == ps
    decreases |ps|
  {
    if ps != [] {
      DeleteAbsent(ps[1..], xuid);
    }
  }

  lemma DeleteKeepsDistinct(ps: seq<PlayerState>, xuid: string)
    requires DistinctXuids(ps)
    ensures DistinctXuids(Delete(ps, xuid))
  {
    if i :| 0 <= i < |ps| && ps[i].xuid == xuid {
      DeleteAt(ps, i);
      var r := ps[..i] + ps[i + 1..];
      forall a, b | 0 <= a < b < |r|
        ensures r[a].xuid != r[b].xuid
      {
        var a' := if a < i then a else a + 1;
        var b' := if b < i then b else b + 1;
        assert r[a] == ps[a'] && r[b] == ps[b'];
      }
    } else {
      LookupNone(ps, xuid);
      DeleteAbsent(ps, xuid);
    }
  }

  /** With distinct xuids, after `delete` the xuid is gone and every other
      key keeps its record. */
  lemma {:induction false} DeleteLookup(ps: seq<PlayerState>, x: string, y: string)
    requires DistinctXuids(ps)
    ensures Lookup(Delete(ps, x), y) == if y == x then None else Lookup(ps, y)
    decreases |ps|
  {
    if ps != [] {
      if ps[0].xuid == x {
        if y == x {
          LookupNone(ps[1..], x);
        }
      } else {
        DeleteLookup(ps[1..], x, y);
      }
    }
  }

  /** Touching the first record with a xuid changes only its `lastSeen`. */
  lemma {:induction false} TouchAt(ps: seq<PlayerState>, i: int, now: int)
    requires 0 <= i < |ps| && forall j :: 0 <= j < i ==> ps[j].xuid != ps[i].xuid
    ensures Touched(ps, ps[i].xuid, now) == ps[i := ps[i].(lastSeen := now)]
    decreases |ps|
  {
    if i > 0 {
      TouchAt(ps[1..], i - 1, now);
      assert ps[1..][i - 1 := ps[i].(lastSeen := now)] == ps[i := ps[i].(lastSeen := now)][1..];
      assert ps[i := ps[i].(lastSeen := now)] == [ps[0]] + ps[i := ps[i].(lastSeen := now)][1..];
    }
  }

  /** Touching an absent xuid changes nothing: touch never adds a player. */
  lemma {:induction false} TouchAbsent(ps: seq<PlayerState>, xuid: string, now: int)
    requires Lookup(ps, xuid).None?
    ensures Touched(ps, xuid, now) == ps
    decreases |ps|
  {
    if ps != [] {
      TouchAbsent(ps[1..], xuid, now);
    }
  }

  /** Touching keeps the keys and their order. */
  lemma {:induction false} TouchedKeepsXuids(ps: seq<PlayerState>, xuid: string, now: int)
    ensures Xuids(Touched(ps, xuid, now)) == Xuids(ps)
    decreases |ps|
  {
    if ps != [] && ps[0].xuid != xuid {
      TouchedKeepsXuids(ps[1..], xuid, now);
    }
  }

  // ---------------------------------------------------------------------
  // Properties of the roster operations
  // ---------------------------------------------------------------------

  /** `addPlayer` leaves `(username, now)` stored for the xuid, keeps every
      other record, and emits one `playerAdded` exactly when the xuid was
      absent. */
  lemma AddPlayerEffect(ps: seq<PlayerState>, xuid: string, username: string, now: int, y: string)
    ensures Lookup(Put(ps, PlayerState(xuid, username, now)), xuid) == Some(PlayerState(xuid, username, now))
    ensures y != xuid ==> Lookup(Put(ps, PlayerState(xuid, username, now)), y) == Lookup(ps, y)
    ensures Lookup(ps, xuid).None? <==> forall i :: 0 <= i < |ps| ==> ps[i].xuid != xuid
  {
    PutLookup(ps, PlayerState(xuid, username, now), xuid);
    PutLookup(ps, PlayerState(xuid, username, now), y);
    LookupNone(ps, xuid);
  }

  /** Re-adding a present xuid does not move it: the key order is unchanged.
      A new xuid goes to the end. */
  lemma ReAddKeepsOrder(ps: seq<PlayerState>, st: PlayerState)
    requires DistinctXuids(ps)
    ensures Xuids(Put(ps, st)) == if Lookup(ps, st.xuid).Some? then Xuids(ps) else Xuids(ps) + [st.xuid]
  {
    LookupNone(ps, st.xuid);
    if i :| 0 <= i < |ps| && ps[i].xuid == st.xuid {
      PutPresent(ps, i, st);
    } else {
      PutAbsent(ps, st);
    }
  }

  /** `removePlayer` on a present xuid removes exactly that record, in place,
      and names the stored username; on an absent one it changes nothing. */
  lemma RemovePlayerEffect(ps: seq<PlayerState>, i: int)
    requires DistinctXuids(ps) && 0 <= i < |ps|
    ensures Lookup(ps, ps[i].xuid) == Some(ps[i])
    ensures Delete(ps, ps[i].xuid) == ps[..i] + ps[i + 1..]
  {
    LookupAt(ps, i);
    DeleteAt(ps, i);
  }

  /** `touch` on a present xuid changes only that record's `lastSeen`. */
  lemma TouchEffect(ps: seq<PlayerState>, i: int, now: int)
    requires DistinctXuids(ps) && 0 <= i < |ps|
    ensures Touched(ps, ps[i].xuid, now) == ps[i := ps[i].(lastSeen := now)]
  {
    TouchAt(ps, i, now);
  }

  lemma {:induction false} SurvivorsAppend(a: seq<PlayerState>, b: seq<PlayerState>, now: int, exp: int)
    ensures Survivors(a + b, now, exp) == Survivors(a, now, exp) + Survivors(b, now, exp)
    ensures PruneEvents(a + b, now, exp) == PruneEvents(a, now, exp) + PruneEvents(b, now, exp)
    decreases |a|
  {
    if a != [] {
      assert (a + b)[1..] == a[1..] + b;
      SurvivorsAppend(a[1..], b, now, exp);
    } else {
      assert a + b == b;
    }
  }

  lemma AppendAssoc<T>(a: seq<T>, b: seq<T>, c: seq<T>)
    ensures a + b + c == a + (b + c)
  {
  }

  /** What prune keeps comes from its input and is live. */
  lemma {:induction false} SurvivorsFrom(ps: seq<PlayerState>, now: int, exp: int)
    ensures forall q :: q in Survivors(ps, now, exp) ==> q in ps && !Expired(q, now, exp)
    decreases |ps|
  {
    if ps != [] {
      SurvivorsFrom(ps[1..], now, exp);
      assert forall q :: q in ps[1..] ==> q in ps;
    }
  }

  /** The loop step of prune on entry `i`. */
  lemma PruneStep(entries: seq<PlayerState>, i: int, now: int, exp: int)
    requires 0 <= i < |entries|
    ensures Survivors(entries[..i + 1], now, exp)
            == Survivors(entries[..i], now, exp) + (if Expired(entries[i], now, exp) then [] else [entries[i]])
    ensures PruneEvents(entries[..i + 1], now, exp)
            == PruneEvents(entries[..i], now, exp)
               + (if Expired(entries[i], now, exp) then [PlayerRemoved(entries[i].username, entries[i].xuid)] else [])
    ensures entries[i..] == [entries[i]] + entries[i + 1..]
  {
    assert entries[..i + 1] == entries[..i] + [entries[i]];
    SurvivorsAppend(entries[..i], [entries[i]], now, exp);
  }

  /** One iteration of the prune loop: the map before and after entry `i`
      is handled, and the event it adds. */
  lemma PruneAdvance(entries: seq<PlayerState>, i: int, now: int, exp: int)
    requires DistinctXuids(entries) && 0 <= i < |entries|
    ensures var before := Survivors(entries[..i], now, exp) + entries[i..];
      Survivors(entries[..i + 1], now, exp) + entries[i + 1..]
        == if Expired(entries[i], now, exp) then Delete(before, entries[i].xuid) else before
    ensures PruneEvents(entries[..i + 1], now, exp)
            == PruneEvents(entries[..i], now, exp)
               + (if Expired(entries[i], now, exp) then [PlayerRemoved(entries[i].username, entries[i].xuid)] else [])
  {
    PruneStep(entries, i, now, exp);
    if Expired(entries[i], now, exp) {
      PruneDeleteStep(entries, i, now, exp);
      assert Survivors(entries[..i + 1], now, exp) == Survivors(entries[..i], now, exp) + [];
    } else {
      AppendAssoc(Survivors(entries[..i], now, exp), [entries[i]], entries[i + 1..]);
    }
  }

  /** Deleting the current entry inside the prune loop removes exactly it:
      no record kept so far shares its xuid. */
  lemma PruneDeleteStep(entries: seq<PlayerState>, i: int, now: int, exp: int)
    requires DistinctXuids(entries) && 0 <= i < |entries|
    ensures var kept := Survivors(entries[..i], now, exp);
      Delete(kept + entries[i..], entries[i].xuid) == kept + entries[i + 1..]
  {
    var kept := Survivors(entries[..i], now, exp);
    var x := entries[i].xuid;
    SurvivorsFrom(entries[..i], now, exp);
    forall k | 0 <= k < |kept|
      ensures kept[k].xuid != x
    {
      assert kept[k] in entries[..i];
    }
    var s := kept + entries[i..];
    assert s[|kept|] == entries[i];
    DeleteAt(s, |kept|);
    assert s[..|kept|] == kept && s[|kept| + 1..] == entries[i + 1..];
  }

  /** Prune keeps distinct xuids. */
  lemma {:induction false} SurvivorsKeepDistinct(ps: seq<PlayerState>, now: int, exp: int)
    requires DistinctXuids(ps)
    ensures DistinctXuids(Survivors(ps, now, exp))
    decreases |ps|
  {
    if ps != [] {
      SurvivorsKeepDistinct(ps[1..], now, exp);
      SurvivorsFrom(ps[1..], now, exp);
      var rest := Survivors(ps[1..], now, exp);
      forall k | 0 <= k < |rest|
        ensures rest[k].xuid != ps[0].xuid
      {
        assert rest[k] in ps[1..];
      }
    }
  }

  /** After prune, a xuid keeps its record exactly when it was present and
      not expired; everything else is gone. */
  lemma {:induction false} PruneLookup(ps: seq<PlayerState>, now: int, exp: int, y: string)
    requires DistinctXuids(ps)
    ensures Lookup(Survivors(ps, now, exp), y)
            == match Lookup(ps, y)
                 case Some(p) => if Expired(p, now, exp) then None else Some(p)
                 case None => None
    decreases |ps|
  {
    if ps != [] {
      var rest := Survivors(ps[1..], now, exp);
      if !Expired(ps[0], now, exp) {
        assert Survivors(ps, now, exp) == [ps[0]] + rest;
        assert ([ps[0]] + rest)[1..] == rest;
      } else {
        assert Survivors(ps, now, exp) == [] + rest == rest;
      }
      if ps[0].xuid == y {
        forall i | 0 <= i < |ps[1..]|
          ensures ps[1..][i].xuid != y
        {
          assert ps[1..][i] == ps[i + 1];
        }
        LookupNone(ps[1..], y);
        PruneLookupAbsent(ps[1..], now, exp, y);
      } else {
        PruneLookup(ps[1..], now, exp, y);
      }
    }
  }

  lemma PruneLookupAbsent(ps: seq<PlayerState>, now: int, exp: int, y: string)
    requires Lookup(ps, y).None?
    ensures Lookup(Survivors(ps, now, exp), y).None?
  {
    LookupNone(ps, y);
    SurvivorsFrom(ps, now, exp);
    var r := Survivors(ps, now, exp);
    forall k | 0 <= k < |r|
      ensures r[k].xuid != y
    {
      assert r[k] in ps;
    }
    LookupNone(r, y);
  }

  /** Prune emits one event per removed record, each naming an expired
      record, and one for every expired record. */
  lemma {:induction false} PruneEventsExact(ps: seq<PlayerState>, now: int, exp: int)
    ensures |Survivors(ps, now, exp)| + |PruneEvents(ps, now, exp)| == |ps|
    ensures forall e :: e in PruneEvents(ps, now, exp) ==>
      e.PlayerRemoved? && (exists i :: 0 <= i < |ps| && ps[i].xuid == e.xuid
                            && ps[i].username == e.username && Expired(ps[i], now, exp))
    ensures forall i :: 0 <= i < |ps| && Expired(ps[i], now, exp) ==>
      PlayerRemoved(ps[i].username, ps[i].xuid) in PruneEvents(ps, now, exp)
    decreases |ps|
  {
    if ps != [] {
      PruneEventsExact(ps[1..], now, exp);
      forall i | 1 <= i < |ps| && Expired(ps[i], now, exp)
        ensures PlayerRemoved(ps[i].username, ps[i].xuid) in PruneEvents(ps, now, exp)
      {
        assert ps[1..][i - 1] == ps[i];
      }
      forall e | e in PruneEvents(ps[1..], now, exp)
        ensures exists i :: (0 <= i < |ps| && ps[i].xuid == e.xuid
                             && ps[i].username == e.username && Expired(ps[i], now, exp))
      {
        var j :| 0 <= j < |ps[1..]| && ps[1..][j].xuid == e.xuid
          && ps[1..][j].username == e.username && Expired(ps[1..][j], now, exp);
        assert ps[j + 1] == ps[1..][j];
      }
    }
  }

  /** A record last seen exactly `expirationMs` ago survives prune; one
      millisecond later it is removed. */
  lemma BoundaryEntryStays(ps: seq<PlayerState>, i: int, now: int, exp: int)
    requires DistinctXuids(ps) && 0 <= i < |ps| && now - ps[i].lastSeen == exp
    ensures Lookup(Survivors(ps, now, exp), ps[i].xuid) == Some(ps[i])
    ensures Lookup(Survivors(ps, now + 1, exp), ps[i].xuid).None?
  {
    LookupAt(ps, i);
    PruneLookup(ps, now, exp, ps[i].xuid);
    PruneLookup(ps, now + 1, exp, ps[i].xuid);
  }

  /** The roster lists one username per live xuid, so two players with the
      same username both appear. */
  lemma SharedUsernameListedTwice(x1: string, x2: string, u: string, t: int, now: int, exp: int)
    requires x1 != x2 && now - t <= exp
    ensures var ps := Put(Put([], PlayerState(x1, u, t)), PlayerState(x2, u, t));
      Usernames(Survivors(ps, now, exp)) == [u, u]
  {
    var p1 := PlayerState(x1, u, t);
    var p2 := PlayerState(x2, u, t);
    var ps := [p1, p2];
    assert Put(Put([], p1), p2) == ps;
    assert ps[1..] == [p2] && [p2][1..] == [];
    assert Survivors([p2], now, exp) == [p2];
    assert Survivors(ps, now, exp) == [p1] + [p2];
  }
}
