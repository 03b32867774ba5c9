/**
 The connection observer: on every join of a player it records the pair
 (address, player id) with the current time, unless the player holds the
 permission that exempts it from logging. The record is a check-then-act
 upsert: an existing pair has its time refreshed, a new pair is inserted.

 The player's permissions and the clock reading are parameters here.
 */
module JoinListener {
  import opened Registry
  import S = Storage

  /** The permission that exempts a player from logging. */
  const BypassPermission: string := "iplog.bypasslogging"

  /** The table after one join event, as the listener's branches compute it. */
  function OnJoin(t: Table, permissions: set<string>, ip: Ip, id: Id, now: Time): (r: Table)
    ensures BypassPermission in permissions ==> r == t
    ensures BypassPermission !in permissions ==> r == t[Key(ip, id) := now]
  {
    if BypassPermission in permissions then t
    else if Key(ip, id) in t then Update(t, Key(ip, id), now)
    else Insert(t, Key(ip, id), now)
  }

  /** Handles a join event against the shared store. */
  method OnPlayerJoin(storage: S.Storage, permissions: set<string>, ip: Ip, id: Id, now: Time)
    modifies storage
    ensures storage.rows == OnJoin(old(storage.rows), permissions, ip, id, now)
  {
    if BypassPermission !in permissions {
      var present := storage.IsPresent(ip, id);
      if present {
        storage.UpdateConnection(ip, id, now);
      } else {
        storage.AddConnection(ip, id, now);
      }
    }
  }

  /**
   After a logged join the pair is present with the time of the join, and
   every query sees it: the player among the address's players and the
   address among the player's addresses, each with that time.
   */
  lemma JoinRecords(t: Table, permissions: set<string>, ip: Ip, id: Id, now: Time)
    requires BypassPermission !in permissions
    ensures Key(ip, id) in OnJoin(t, permissions, ip, id, now)
    ensures OnJoin(t, permissions, ip, id, now)[Key(ip, id)] == now
    ensures ip in Addresses(OnJoin(t, permissions, ip, id, now), id)
    ensures id in Players(OnJoin(t, permissions, ip, id, now), ip)
    ensures id in Aliases(OnJoin(t, permissions, ip, id, now), id)
    ensures AddressesAndTime(OnJoin(t, permissions, ip, id, now), id)[ip] == now
    ensures PlayersAndTime(OnJoin(t, permissions, ip, id, now), ip)[id] == now
  {
    var r := OnJoin(t, permissions, ip, id, now);
    AliasesContainSelf(r, id);
  }

  /**
   A join that refreshes an existing pair keeps the number of rows; one
   that inserts a new pair adds exactly one row.
   */
  lemma JoinRowCount(t: Table, permissions: set<string>, ip: Ip, id: Id, now: Time)
    requires BypassPermission !in permissions
    ensures Key(ip, id) in t ==> |OnJoin(t, permissions, ip, id, now)| == |t|
    ensures Key(ip, id) !in t ==> |OnJoin(t, permissions, ip, id, now)| == |t| + 1
  {
    var r := OnJoin(t, permissions, ip, id, now);
    if Key(ip, id) in t {
      assert r.Keys == t.Keys;
    } else {
      assert r.Keys == t.Keys + {Key(ip, id)};
    }
  }

  /** A join event leaves the row of every other pair as it was. */
  lemma JoinFrame(t: Table, permissions: set<string>, ip: Ip, id: Id, now: Time, k: Key)
    requires k != Key(ip, id)
    ensures k in OnJoin(t, permissions, ip, id, now) <==> k in t
    ensures k in t ==> OnJoin(t, permissions, ip, id, now)[k] == t[k]
  {
  }

  /** The table after the same pair joins once at each of the given times, in order. */
  function JoinAll(t: Table, permissions: set<string>, ip: Ip, id: Id, times: seq<Time>): Table
    decreases |times|
  {
    if times == [] then t
    else JoinAll(OnJoin(t, permissions, ip, id, times[0]), permissions, ip, id, times[1..])
  }

  /**
   Repeated joins of one pair keep a single row for it, whose time is the
   last one supplied; the table has one row more than before exactly when
   the pair was new, and no other row changes.
   */
  lemma {:induction false} RepeatedJoins(t: Table, permissions: set<string>, ip: Ip, id: Id, times: seq<Time>)
    requires BypassPermission !in permissions
    requires times != []
    ensures JoinAll(t, permissions, ip, id, times) == t[Key(ip, id) := times[|times| - 1]]
    ensures |JoinAll(t, permissions, ip, id, times)| == if Key(ip, id) in t then |t| else |t| + 1
    decreases |times|
  {
    var t' := OnJoin(t, permissions, ip, id, times[0]);
    JoinRowCount(t, permissions, ip, id, times[0]);
    if |times| == 1 {
      assert times[1..] == [];
    } else {
      RepeatedJoins(t', permissions, ip, id, times[1..]);
      assert t'[Key(ip, id) := times[|times| - 1]] == t[Key(ip, id) := times[|times| - 1]];
    }
  }

  /**
   Two players join from one address: the address lists both, each is an
   alias of the other, and the history of the address shows both times.
   */
  lemma TwoPlayersShareAddress(ip: Ip, u1: Id, u2: Id, t1: Time, t2: Time)
    requires u1 != u2
    ensures var r := OnJoin(OnJoin(map[], {}, ip, u1, t1), {}, ip, u2, t2);
      && Players(r, ip) == {u1, u2}
      && Aliases(r, u1) == {u1, u2}
      && Aliases(r, u2) == {u1, u2}
      && PlayersAndTime(r, ip) == map[u1 := t1, u2 := t2]
  {
    var r := OnJoin(OnJoin(map[], {}, ip, u1, t1), {}, ip, u2, t2);
    assert r == map[Key(ip, u1) := t1, Key(ip, u2) := t2];
    assert Players(r, ip) == {u1, u2};
    assert Addresses(r, u1) == {ip} && Addresses(r, u2) == {ip};
    forall u | u == u1 || u == u2 ensures Aliases(r, u) == {u1, u2} {
      forall v ensures v in Aliases(r, u) <==> v in {u1, u2} {
        AliasesViaAddresses(r, u, v);
      }
    }
  }
}
