/**
 The REGISTRY relation of IPLog as a value: rows (IP, ID, INSTANT) with
 primary key (IP, ID). A table is a finite map from the key to the INSTANT
 column, so "at most one row per (ip, id) pair" holds by construction.

 Each SQL statement the store issues is given its meaning here as a pure
 function over a table; the class in Storage.dfy is proved against them.
 */
module Registry {

  /** The canonical text of an address (what InetAddress.getHostAddress yields). */
  type Ip = string

  /** The text of a player's UUID. */
  type Id = string

  /** A DATETIME value; only its order matters, so it is an integer. */
  type Time = int

  /** The primary key (IP, ID) of a REGISTRY row. */
  datatype Key = Key(ip: Ip, id: Id)

  /** The REGISTRY table: each key maps to its row's INSTANT. */
  type Table = map<Key, Time>

  // ---------------------------------------------------------------------
  // Statements that change the table
  // ---------------------------------------------------------------------

  /**
   INSERT INTO REGISTRY(IP, ID, INSTANT) VALUES (?, ?, ?). On a key that is
   already present the insert violates the primary key; the store swallows
   that error, so the table is left as it was.
   */
  function Insert(t: Table, k: Key, time: Time): (r: Table)
    ensures r.Keys == t.Keys + {k}
    ensures k !in t ==> r[k] == time
    ensures forall k' :: k' in t ==> r[k'] == t[k']
  {
    if k in t then t else t[k := time]
  }

  /** UPDATE REGISTRY SET INSTANT = ? WHERE IP = ? AND ID = ? */
  function Update(t: Table, k: Key, time: Time): (r: Table)
    ensures r.Keys == t.Keys
    ensures k in t ==> r[k] == time
    ensures forall k' :: k' in t && k' != k ==> r[k'] == t[k']
  {
    if k in t then t[k := time] else t
  }

  /** DELETE FROM REGISTRY WHERE IP = ? AND ID = ? */
  function Purge(t: Table, k: Key): (r: Table)
    ensures r.Keys == t.Keys - {k}
    ensures forall k' :: k' in r ==> r[k'] == t[k']
  {
    t - {k}
  }

  // ---------------------------------------------------------------------
  // Queries
  // ---------------------------------------------------------------------

  /** SELECT ID FROM REGISTRY WHERE IP = ? */
  function Players(t: Table, ip: Ip): (r: set<Id>)
    ensures forall id :: id in r <==> Key(ip, id) in t
  {
    set k | k in t && k.ip == ip :: k.id
  }

  /** SELECT IP FROM REGISTRY WHERE ID = ? */
  function Addresses(t: Table, id: Id): (r: set<Ip>)
    ensures forall ip :: ip in r <==> Key(ip, id) in t
  {
    set k | k in t && k.id == id :: k.ip
  }

  /**
   The ids of the rows of `inner` whose IP is also the IP of a row of
   `outer` with ID u: the join REGISTRY JOIN REGISTRY REG ON
   (REGISTRY.IP = REG.IP) WHERE REGISTRY.ID = u, with REGISTRY ranging over
   `outer` and REG over `inner`.
   */
  function SharedAddressIds(outer: Table, inner: Table, u: Id): (r: set<Id>)
    ensures forall v :: v in r <==> exists ip :: Key(ip, u) in outer && Key(ip, v) in inner
  {
    set k | k in inner && Key(k.ip, u) in outer :: k.id
  }

  /** SELECT DISTINCT(REG.ID) FROM REGISTRY JOIN REGISTRY REG ON (REGISTRY.IP = REG.IP) WHERE REGISTRY.ID = ? */
  function Aliases(t: Table, u: Id): (r: set<Id>)
    ensures forall v :: v in r <==> exists ip :: Key(ip, u) in t && Key(ip, v) in t
  {
    SharedAddressIds(t, t, u)
  }

  /**
   The rows of the result set of a query WHERE IP = ?. Under the primary key
   (IP, ID) no two of them carry the same ID, so there are as many rows as
   players of ip.
   */
  function RowsAt(t: Table, ip: Ip): (r: set<Key>)
    ensures forall k :: k in r <==> k in t && k.ip == ip
    ensures |r| == |Players(t, ip)|
  {
    CountRowsAt(t.Keys, ip);
    set k | k in t && k.ip == ip
  }

  /**
   The rows of the result set of a query WHERE ID = ?. Under the primary key
   (IP, ID) no two of them carry the same IP, so there are as many rows as
   addresses of id.
   */
  function RowsOf(t: Table, id: Id): (r: set<Key>)
    ensures forall k :: k in r <==> k in t && k.id == id
    ensures |r| == |Addresses(t, id)|
  {
    CountRowsOf(t.Keys, id);
    set k | k in t && k.id == id
  }

  /**
   Adding one key k to a set of keys without it: the keys with IP ip gain k
   exactly when k has that IP, and their IDs gain k.id, which no other key
   with IP ip carries.
   */
  lemma KeysAtStep(keys: set<Key>, k: Key, ip: Ip)
    requires k !in keys
    ensures (set k' | k' in keys + {k} && k'.ip == ip)
      == (set k' | k' in keys && k'.ip == ip) + (if k.ip == ip then {k} else {})
    ensures (set k' | k' in keys + {k} && k'.ip == ip :: k'.id)
      == (set k' | k' in keys && k'.ip == ip :: k'.id) + (if k.ip == ip then {k.id} else {})
    ensures k.ip == ip ==> k.id !in (set k' | k' in keys && k'.ip == ip :: k'.id)
  {
  }

  /**
   Adding one key k to a set of keys without it: the keys with ID id gain k
   exactly when k has that ID, and their IPs gain k.ip, which no other key
   with ID id carries.
   */
  lemma KeysOfStep(keys: set<Key>, k: Key, id: Id)
    requires k !in keys
    ensures (set k' | k' in keys + {k} && k'.id == id)
      == (set k' | k' in keys && k'.id == id) + (if k.id == id then {k} else {})
    ensures (set k' | k' in keys + {k} && k'.id == id :: k'.ip)
      == (set k' | k' in keys && k'.id == id :: k'.ip) + (if k.id == id then {k.ip} else {})
    ensures k.id == id ==> k.ip !in (set k' | k' in keys && k'.id == id :: k'.ip)
  {
  }

  /**
   Under the primary key the keys with a given IP and their IDs are equally
   many: no two such keys share an ID, so dropping the IP column loses none.
   */
  lemma {:induction false} CountRowsAt(keys: set<Key>, ip: Ip)
    ensures |set k | k in keys && k.ip == ip| == |set k | k in keys && k.ip == ip :: k.id|
    decreases keys
  {
    if keys != {} {
      var k :| k in keys;
      var keys' := keys - {k};
      assert keys == keys' + {k};
      CountRowsAt(keys', ip);
      KeysAtStep(keys', k, ip);
    }
  }

  /**
   Under the primary key the keys with a given ID and their IPs are equally
   many: no two such keys share an IP, so dropping the ID column loses none.
   */
  lemma {:induction false} CountRowsOf(keys: set<Key>, id: Id)
    ensures |set k | k in keys && k.id == id| == |set k | k in keys && k.id == id :: k.ip|
    decreases keys
  {
    if keys != {} {
      var k :| k in keys;
      var keys' := keys - {k};
      assert keys == keys' + {k};
      CountRowsOf(keys', id);
      KeysOfStep(keys', k, id);
    }
  }

  /**
   SELECT ID, INSTANT FROM REGISTRY WHERE IP = ? ORDER BY INSTANT, collected
   into a map from ID to INSTANT. The map is a HashMap in the store, so the
   order of the rows is not kept.
   */
  function PlayersAndTime(t: Table, ip: Ip): (r: map<Id, Time>)
    ensures r.Keys == Players(t, ip)
    ensures forall id :: id in r ==> r[id] == t[Key(ip, id)]
  {
    map k | k in t && k.ip == ip :: k.id := t[k]
  }

  /**
   SELECT IP, INSTANT FROM REGISTRY WHERE ID = ? ORDER BY INSTANT, collected
   into a map from IP to INSTANT. The map is a HashMap in the store, so the
   order of the rows is not kept.
   */
  function AddressesAndTime(t: Table, id: Id): (r: map<Ip, Time>)
    ensures r.Keys == Addresses(t, id)
    ensures forall ip :: ip in r ==> r[ip] == t[Key(ip, id)]
  {
    map k | k in t && k.id == id :: k.ip := t[k]
  }

  /**
   Scanning one more row k for the query WHERE ID = id: when k matches, the
   map gains the entry k.ip, which was not in it before; otherwise the map
   is unchanged.
   */
  lemma AddressesAndTimeStep(t: Table, k: Key, time: Time, id: Id)
    requires k !in t
    ensures k.id == id ==> k.ip !in AddressesAndTime(t, id)
    ensures AddressesAndTime(t[k := time], id)
      == if k.id == id then AddressesAndTime(t, id)[k.ip := time] else AddressesAndTime(t, id)
  {
  }

  /**
   Scanning one more row k for the query WHERE IP = ip: when k matches, the
   map gains the entry k.id, which was not in it before; otherwise the map
   is unchanged.
   */
  lemma PlayersAndTimeStep(t: Table, k: Key, time: Time, ip: Ip)
    requires k !in t
    ensures k.ip == ip ==> k.id !in PlayersAndTime(t, ip)
    ensures PlayersAndTime(t[k := time], ip)
      == if k.ip == ip then PlayersAndTime(t, ip)[k.id := time] else PlayersAndTime(t, ip)
  {
  }

  /** Scanning one more row k adds one row to the result set WHERE ID = id exactly when k matches. */
  lemma RowsOfStep(t: Table, k: Key, time: Time, id: Id)
    requires k !in t
    ensures |RowsOf(t[k := time], id)| == |RowsOf(t, id)| + (if k.id == id then 1 else 0)
  {
    if k.id == id {
      assert RowsOf(t[k := time], id) == RowsOf(t, id) + {k};
    } else {
      assert RowsOf(t[k := time], id) == RowsOf(t, id);
    }
  }

  /** Scanning one more row k adds one row to the result set WHERE IP = ip exactly when k matches. */
  lemma RowsAtStep(t: Table, k: Key, time: Time, ip: Ip)
    requires k !in t
    ensures |RowsAt(t[k := time], ip)| == |RowsAt(t, ip)| + (if k.ip == ip then 1 else 0)
  {
    if k.ip == ip {
      assert RowsAt(t[k := time], ip) == RowsAt(t, ip) + {k};
    } else {
      assert RowsAt(t[k := time], ip) == RowsAt(t, ip);
    }
  }

  // ---------------------------------------------------------------------
  // Properties of the alias relation
  // ---------------------------------------------------------------------

  /**
   The join computed in two steps: v is an alias of u exactly when v is one
   of the players of some address of u.
   */
  lemma AliasesViaAddresses(t: Table, u: Id, v: Id)
    ensures v in Aliases(t, u) <==> exists ip :: ip in Addresses(t, u) && v in Players(t, ip)
  {
    if v in Aliases(t, u) {
      var ip :| Key(ip, u) in t && Key(ip, v) in t;
      assert ip in Addresses(t, u) && v in Players(t, ip);
    }
  }

  /** Sharing an address is symmetric: v is an alias of u exactly when u is one of v. */
  lemma AliasesSymmetric(t: Table, u: Id, v: Id)
    ensures v in Aliases(t, u) <==> u in Aliases(t, v)
  {
    if v in Aliases(t, u) {
      var ip :| Key(ip, u) in t && Key(ip, v) in t;
      assert Key(ip, v) in t && Key(ip, u) in t;
    }
    if u in Aliases(t, v) {
      var ip :| Key(ip, v) in t && Key(ip, u) in t;
      assert Key(ip, u) in t && Key(ip, v) in t;
    }
  }

  /** The raw alias set of u holds u itself exactly when u has at least one row. */
  lemma AliasesContainSelf(t: Table, u: Id)
    ensures u in Aliases(t, u) <==> Addresses(t, u) != {}
  {
    if Addresses(t, u) != {} {
      var ip :| ip in Addresses(t, u);
      assert Key(ip, u) in t;
    }
  }

  /** The raw alias set of u is empty exactly when u has no row at all. */
  lemma AliasesEmptyIffNoRows(t: Table, u: Id)
    ensures Aliases(t, u) == {} <==> Addresses(t, u) == {}
  {
    AliasesContainSelf(t, u);
  }

  // ---------------------------------------------------------------------
  // Queries depend only on which keys are present
  // ---------------------------------------------------------------------

  /** Two tables with the same rows (ignoring INSTANT) answer every set query alike. */
  lemma SetQueriesDependOnKeys(t: Table, t': Table)
    requires t.Keys == t'.Keys
    ensures forall ip :: Players(t, ip) == Players(t', ip)
    ensures forall id :: Addresses(t, id) == Addresses(t', id)
    ensures forall u :: Aliases(t, u) == Aliases(t', u)
  {
    forall ip ensures Players(t, ip) == Players(t', ip) {
    }
    forall id ensures Addresses(t, id) == Addresses(t', id) {
    }
    forall u ensures Aliases(t, u) == Aliases(t', u) {
    }
  }

  /** An UPDATE never changes what the set queries return. */
  lemma UpdateKeepsSetQueries(t: Table, k: Key, time: Time)
    ensures forall ip :: Players(Update(t, k, time), ip) == Players(t, ip)
    ensures forall id :: Addresses(Update(t, k, time), id) == Addresses(t, id)
    ensures forall u :: Aliases(Update(t, k, time), u) == Aliases(t, u)
  {
    SetQueriesDependOnKeys(Update(t, k, time), t);
  }

  // ---------------------------------------------------------------------
  // How the mutating statements change the queries
  // ---------------------------------------------------------------------

  /** After an INSERT the pair is visible from both sides, and no other query answer changes. */
  lemma InsertVisible(t: Table, k: Key, time: Time)
    ensures Players(Insert(t, k, time), k.ip) == Players(t, k.ip) + {k.id}
    ensures Addresses(Insert(t, k, time), k.id) == Addresses(t, k.id) + {k.ip}
    ensures forall ip :: ip != k.ip ==> Players(Insert(t, k, time), ip) == Players(t, ip)
    ensures forall id :: id != k.id ==> Addresses(Insert(t, k, time), id) == Addresses(t, id)
  {
  }

  /**
   After a DELETE of (ip, id), id is gone from the players of ip and ip from
   the addresses of id; every other answer stays the same.
   */
  lemma PurgeInvisible(t: Table, k: Key)
    ensures Players(Purge(t, k), k.ip) == Players(t, k.ip) - {k.id}
    ensures Addresses(Purge(t, k), k.id) == Addresses(t, k.id) - {k.ip}
    ensures forall ip :: ip != k.ip ==> Players(Purge(t, k), ip) == Players(t, ip)
    ensures forall id :: id != k.id ==> Addresses(Purge(t, k), id) == Addresses(t, id)
  {
  }

  /** Deleting a pair twice is the same as deleting it once. */
  lemma PurgeIdempotent(t: Table, k: Key)
    ensures Purge(Purge(t, k), k) == Purge(t, k)
  {
  }

  /** Deleting an absent pair leaves the table unchanged. */
  lemma PurgeAbsent(t: Table, k: Key)
    requires k !in t
    ensures Purge(t, k) == t
  {
  }

  /** Updating an absent pair leaves the table unchanged and adds no row. */
  lemma UpdateAbsent(t: Table, k: Key, time: Time)
    requires k !in t
    ensures Update(t, k, time) == t
  {
  }

  /** Inserting an already present pair leaves the table unchanged. */
  lemma InsertPresent(t: Table, k: Key, time: Time)
    requires k in t
    ensures Insert(t, k, time) == t
  {
  }

  /** Inserting an absent pair adds exactly one row. */
  lemma InsertAbsentGrows(t: Table, k: Key, time: Time)
    requires k !in t
    ensures |Insert(t, k, time)| == |t| + 1
  {
  }
}
