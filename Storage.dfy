/**
 The association store: one object holding the REGISTRY table. The
 mutators change the table in place; each query scans the rows and
 collects the matching ones into a set or a map, as the store's
 `while (rs.next())` loops do, and is proved to return the answer the
 corresponding function of Registry defines.

 A scan visits the rows in an arbitrary order. ORDER BY INSTANT is one such
 order, and since every scan is proved to return the same value whatever
 the order, the result promises no order, as a HashMap does not.
 */
module Storage {
  import opened Registry

  class Storage {
    /** The rows of REGISTRY, keyed by their primary key (IP, ID). */
    var rows: Table

    /**
     CREATE TABLE IF NOT EXISTS: on first startup the table is empty; on a
     later one the rows already persisted are kept.
     */
    constructor (persisted: Table)
      ensures rows == persisted
    {
      rows := persisted;
    }

    /** SELECT 1 FROM REGISTRY WHERE IP = ? AND ID = ?, then `next()`. */
    method IsPresent(ip: Ip, id: Id) returns (present: bool)
      ensures present <==> Key(ip, id) in rows
      ensures present <==> ip in Addresses(rows, id)
    {
      present := Key(ip, id) in rows;
    }

    /** INSERT of a new row; a duplicate key leaves the table unchanged. */
    method AddConnection(ip: Ip, id: Id, time: Time)
      modifies this
      ensures rows == Insert(old(rows), Key(ip, id), time)
    {
      if Key(ip, id) !in rows {
        rows := rows[Key(ip, id) := time];
      }
    }

    /** UPDATE of the pair's INSTANT; an absent pair is left absent. */
    method UpdateConnection(ip: Ip, id: Id, time: Time)
      modifies this
      ensures rows == Update(old(rows), Key(ip, id), time)
    {
      if Key(ip, id) in rows {
        rows := rows[Key(ip, id) := time];
      }
    }

    /** DELETE of the pair's row, if there is one. */
    method PurgeConnection(ip: Ip, id: Id)
      modifies this
      ensures rows == Purge(old(rows), Key(ip, id))
    {
      rows := rows - {Key(ip, id)};
    }

    /** The ids that share at least one address with u, u itself included when it has a row. */
    method GetAliases(u: Id) returns (aliases: set<Id>)
      ensures aliases == Aliases(rows, u)
      ensures forall v :: v in aliases <==> u in Aliases(rows, v)
    {
      aliases := {};
      var pending := rows.Keys;
      while pending != {}
        invariant pending <= rows.Keys
        invariant aliases == SharedAddressIds(rows - pending, rows, u)
        decreases pending
      {
        var k :| k in pending;
        if k.id == u {
          var sharing := GetPlayers(k.ip);
          aliases := aliases + sharing;
        }
        pending := pending - {k};
      }
      assert rows - pending == rows;
      forall v ensures v in aliases <==> u in Aliases(rows, v) {
        AliasesSymmetric(rows, u, v);
      }
    }

    /** The ids of the rows whose IP is ip. */
    method GetPlayers(ip: Ip) returns (players: set<Id>)
      ensures players == Players(rows, ip)
    {
      players := {};
      var pending := rows.Keys;
      while pending != {}
        invariant pending <= rows.Keys
        invariant players == Players(rows - pending, ip)
        decreases pending
      {
        var k :| k in pending;
        if k.ip == ip {
          players := players + {k.id};
        }
        pending := pending - {k};
      }
      assert rows - pending == rows;
    }

    /** The addresses of the rows whose ID is id. */
    method GetAddresses(id: Id) returns (addresses: set<Ip>)
      ensures addresses == Addresses(rows, id)
    {
      addresses := {};
      var pending := rows.Keys;
      while pending != {}
        invariant pending <= rows.Keys
        invariant addresses == Addresses(rows - pending, id)
        decreases pending
      {
        var k :| k in pending;
        if k.id == id {
          addresses := addresses + {k.ip};
        }
        pending := pending - {k};
      }
      assert rows - pending == rows;
    }

    /**
     Each address of id with its row's INSTANT. Every row of the result set
     adds its own entry: no `put` overwrites an earlier one.
     */
    method GetAddressesAndTime(id: Id) returns (data: map<Ip, Time>)
      ensures data == AddressesAndTime(rows, id)
      ensures |data| == |RowsOf(rows, id)|
    {
      data := map[];
      var pending := rows.Keys;
      while pending != {}
        invariant pending <= rows.Keys
        invariant data == AddressesAndTime(rows - pending, id)
        invariant |data| == |RowsOf(rows - pending, id)|
        decreases pending
      {
        var k :| k in pending;
        ghost var scanned := rows - pending;
        AddressesAndTimeStep(scanned, k, rows[k], id);
        RowsOfStep(scanned, k, rows[k], id);
        if k.id == id {
          data := data[k.ip := rows[k]];
        }
        pending := pending - {k};
        assert rows - pending == scanned[k := rows[k]];
      }
      assert rows - pending == rows;
    }

    /**
     Each player of ip with its row's INSTANT. Every row of the result set
     adds its own entry: no `put` overwrites an earlier one.
     */
    method GetPlayersAndTime(ip: Ip) returns (data: map<Id, Time>)
      ensures data == PlayersAndTime(rows, ip)
      ensures |data| == |RowsAt(rows, ip)|
    {
      data := map[];
      var pending := rows.Keys;
      while pending != {}
        invariant pending <= rows.Keys
        invariant data == PlayersAndTime(rows - pending, ip)
        invariant |data| == |RowsAt(rows - pending, ip)|
        decreases pending
      {
        var k :| k in pending;
        ghost var scanned := rows - pending;
        PlayersAndTimeStep(scanned, k, rows[k], ip);
        RowsAtStep(scanned, k, rows[k], ip);
        if k.ip == ip {
          data := data[k.id := rows[k]];
        }
        pending := pending - {k};
        assert rows - pending == scanned[k := rows[k]];
      }
      assert rows - pending == rows;
    }
  }
}
