# IPLog association store, modelled in Dafny

IPLog records which player ids (UUIDs) have connected from which network
addresses, so that operators can find accounts that share an address
("aliases"). Its core is the `Storage` class: one SQL table
`REGISTRY(IP, ID, INSTANT)` with primary key `(IP, ID)`, an existence check,
insert / update / delete of one row, and five read queries. The join
listener feeds this table: on every join of a player who is not exempt from
logging, it updates the pair's time if the pair is known and inserts it
otherwise.

The project has three modules:

- `Registry` (Registry.dfy) gives the table as a value, a finite map from the
  key `Key(ip, id)` to the INSTANT (an `int`: only its order matters). Because
  the map has one entry per key, the primary key constraint holds by
  construction. Each SQL statement gets its meaning here as a pure function.
  `Insert` is a no-op on a duplicate key, since the store swallows the
  constraint violation. The same module has the query functions
  (`Players`, `Addresses`, `Aliases`, `PlayersAndTime`, `AddressesAndTime`)
  and the lemmas about them: alias symmetry, self-inclusion, and how each
  mutation changes each query.
- `Storage` (Storage.dfy): the class `Storage` holds the table in a field
  `rows`. The three mutators change `rows` in place and are proved equal to
  `Insert`, `Update` and `Purge`. Each query method scans the rows in a
  `while` loop and collects the matches into a set or a map. Each is proved to
  return exactly what its query function defines. The two `*AndTime` methods
  also prove that every matching row adds its own entry, so no `put`
  overwrites another.
- `JoinListener` (JoinListener.dfy): `OnPlayerJoin` is the listener's
  check-then-act upsert running against a `Storage` object. `OnJoin` is its
  meaning as a function. The lemmas show that a logged join leaves the pair
  present with the new time, adds at most one row, leaves every other row
  alone, and that repeated joins keep one row holding the last time.

Addresses and ids are opaque strings. Addresses are taken in their canonical
text form, the one `InetAddress.getHostAddress` returns. The player's
permissions and the clock reading `LocalDateTime.now()` are parameters of
`OnPlayerJoin`.

Two behaviours of the code are easy to misread, and the model keeps both as
the code has them:

- The history queries ask for `ORDER BY INSTANT`
  (src/main/java/com/ichorpowered/iplog/Storage.java:215, 237), but they put
  the rows into a `HashMap` (Storage.java:211, 233), which keeps no order.
  The history commands then print that map in its own iteration order. So
  the model's scan visits rows in an arbitrary order (sorted order is one of
  them), and the result is a `map`. The proofs show this map is the same
  whatever order the rows arrive in.
- The self-join of `getAliases` returns the queried id too whenever it has a
  row, and `Aliases` does the same (`AliasesContainSelf`). The alias command
  removes that id only when the sender queries themself
  (src/main/java/com/meronat/iplog/commands/AliasCommand.java:63-67), and it
  is not modelled.

## Model

| member | source | states |
|---|---|---|
| Registry.Insert | src/main/java/com/ichorpowered/iplog/Storage.java:95-109 | the INSERT adds the key with the given time when it is absent; a duplicate key raises a swallowed error and adds nothing; no existing row changes |
| Registry.Update | src/main/java/com/ichorpowered/iplog/Storage.java:111-125 | the UPDATE sets the pair's time when it is present; it adds no rows and leaves every other row as it was |
| Registry.Purge | src/main/java/com/ichorpowered/iplog/Storage.java:127-140 | the DELETE removes exactly the given key; every other row keeps its time |
| Registry.Players | src/main/java/com/ichorpowered/iplog/Storage.java:169 | id is among the players of ip exactly when the row (ip, id) exists |
| Registry.Addresses | src/main/java/com/ichorpowered/iplog/Storage.java:191 | ip is among the addresses of id exactly when the row (ip, id) exists |
| Registry.SharedAddressIds | src/main/java/com/ichorpowered/iplog/Storage.java:147 | the join gives v exactly when some ip has a row for u on the REGISTRY side and a row for v on the REG side |
| Registry.Aliases | src/main/java/com/ichorpowered/iplog/Storage.java:142-162 | v is an alias of u exactly when some ip has rows for both u and v |
| Registry.RowsAt | src/main/java/com/ichorpowered/iplog/Storage.java:70-74 | the result set WHERE IP = ip is the set of rows with that ip, and under the primary key it has one row per id: as many rows as players of ip |
| Registry.RowsOf | src/main/java/com/ichorpowered/iplog/Storage.java:70-74 | the result set WHERE ID = id is the set of rows with that id, and under the primary key it has one row per ip: as many rows as addresses of id |
| Registry.KeysAtStep | src/main/java/com/ichorpowered/iplog/Storage.java:70-74 | adding a key adds it to the keys with its IP and adds its ID to their IDs, an ID no other key with that IP carries |
| Registry.KeysOfStep | src/main/java/com/ichorpowered/iplog/Storage.java:70-74 | adding a key adds it to the keys with its ID and adds its IP to their IPs, an IP no other key with that ID carries |
| Registry.CountRowsAt | src/main/java/com/ichorpowered/iplog/Storage.java:70-74 | the keys with a given IP are exactly as many as their distinct IDs, by induction over the keys |
| Registry.CountRowsOf | src/main/java/com/ichorpowered/iplog/Storage.java:70-74 | the keys with a given ID are exactly as many as their distinct IPs, by induction over the keys |
| Registry.PlayersAndTime | src/main/java/com/ichorpowered/iplog/Storage.java:232-252 | the map's keys are the players of ip, and each value is the INSTANT of that player's row |
| Registry.AddressesAndTime | src/main/java/com/ichorpowered/iplog/Storage.java:210-230 | the map's keys are the addresses of id, and each value is the INSTANT of that address's row |
| Registry.AddressesAndTimeStep | src/main/java/com/ichorpowered/iplog/Storage.java:220-222 | a matching row's address is a new key of the map collected so far, and adding the row adds exactly that entry; a row that does not match changes nothing |
| Registry.PlayersAndTimeStep | src/main/java/com/ichorpowered/iplog/Storage.java:242-244 | a matching row's id is a new key of the map collected so far, and adding the row adds exactly that entry; a row that does not match changes nothing |
| Registry.RowsOfStep | src/main/java/com/ichorpowered/iplog/Storage.java:215 | adding a row to the table adds one row to the result set WHERE ID = id exactly when the row's ID is id |
| Registry.RowsAtStep | src/main/java/com/ichorpowered/iplog/Storage.java:237 | adding a row to the table adds one row to the result set WHERE IP = ip exactly when the row's IP is ip |
| Registry.AliasesViaAddresses | src/main/java/com/ichorpowered/iplog/Storage.java:142-162 | the join equals a two-step lookup: v is an alias of u exactly when v is a player of some address of u |
| Registry.AliasesSymmetric | src/main/java/com/ichorpowered/iplog/Storage.java:147 | v is in the alias set of u exactly when u is in the alias set of v |
| Registry.AliasesContainSelf | src/main/java/com/ichorpowered/iplog/Storage.java:147 | the alias set of u contains u exactly when u has at least one row |
| Registry.AliasesEmptyIffNoRows | src/main/java/com/ichorpowered/iplog/Storage.java:142-162 | the alias set of u is empty exactly when u has no address |
| Registry.SetQueriesDependOnKeys | src/main/java/com/ichorpowered/iplog/Storage.java:142-208 | tables with the same keys give the same players, addresses and aliases for every argument, whatever their times |
| Registry.UpdateKeepsSetQueries | src/main/java/com/ichorpowered/iplog/Storage.java:111-125 | an UPDATE changes none of the players, addresses or alias answers |
| Registry.InsertVisible | src/main/java/com/ichorpowered/iplog/Storage.java:95-109 | after an insert, the players of ip gain id and the addresses of id gain ip; every other address's players and every other id's addresses stay the same |
| Registry.PurgeInvisible | src/main/java/com/ichorpowered/iplog/Storage.java:127-140 | after a purge, the players of ip lose exactly id and the addresses of id lose exactly ip; every other answer stays the same |
| Registry.PurgeIdempotent | src/main/java/com/ichorpowered/iplog/Storage.java:127-140 | purging a pair twice gives the same table as purging it once |
| Registry.PurgeAbsent | src/main/java/com/ichorpowered/iplog/Storage.java:127-140 | purging an absent pair leaves the table unchanged |
| Registry.UpdateAbsent | src/main/java/com/ichorpowered/iplog/Storage.java:111-125 | updating an absent pair leaves the table unchanged |
| Registry.InsertPresent | src/main/java/com/ichorpowered/iplog/Storage.java:70-74 | because of the primary key, inserting a pair that is already present leaves the table unchanged |
| Registry.InsertAbsentGrows | src/main/java/com/ichorpowered/iplog/Storage.java:95-109 | inserting an absent pair adds exactly one row |
| Storage.Storage.constructor | src/main/java/com/ichorpowered/iplog/Storage.java:68-76 | CREATE TABLE IF NOT EXISTS keeps the rows already persisted (none on first startup) |
| Storage.Storage.IsPresent | src/main/java/com/ichorpowered/iplog/Storage.java:78-93 | returns true exactly when the row (ip, id) exists, that is, when ip is among the addresses of id; the table does not change |
| Storage.Storage.AddConnection | src/main/java/com/ichorpowered/iplog/Storage.java:95-109 | the new table is `Insert` of the old one |
| Storage.Storage.UpdateConnection | src/main/java/com/ichorpowered/iplog/Storage.java:111-125 | the new table is `Update` of the old one |
| Storage.Storage.PurgeConnection | src/main/java/com/ichorpowered/iplog/Storage.java:127-140 | the new table is `Purge` of the old one |
| Storage.Storage.GetAliases | src/main/java/com/ichorpowered/iplog/Storage.java:142-162 | the loop collects exactly `Aliases(rows, u)`, and v is in the result exactly when u is an alias of v |
| Storage.Storage.GetPlayers | src/main/java/com/ichorpowered/iplog/Storage.java:164-184 | the loop collects exactly the ids of the rows with that ip |
| Storage.Storage.GetAddresses | src/main/java/com/ichorpowered/iplog/Storage.java:186-208 | the loop collects exactly the addresses of the rows with that id |
| Storage.Storage.GetAddressesAndTime | src/main/java/com/ichorpowered/iplog/Storage.java:210-230 | the loop builds exactly `AddressesAndTime(rows, id)`, with one entry per row of the result set, so no put overwrites another |
| Storage.Storage.GetPlayersAndTime | src/main/java/com/ichorpowered/iplog/Storage.java:232-252 | the loop builds exactly `PlayersAndTime(rows, ip)`, with one entry per row of the result set, so no put overwrites another |
| JoinListener.OnJoin | src/main/java/com/ichorpowered/iplog/JoinListener.java:41-53 | for a player with the bypass permission the table is unchanged; otherwise the update or insert branch leaves the pair mapped to now, which makes it an upsert |
| JoinListener.OnPlayerJoin | src/main/java/com/ichorpowered/iplog/JoinListener.java:40-54 | running isPresent and then updateConnection or addConnection on the store gives the table `OnJoin` describes |
| JoinListener.JoinRecords | src/main/java/com/ichorpowered/iplog/JoinListener.java:44-53 | after a logged join the pair is present with time now; ip is among the addresses of id and id among the players of ip, both with time now; id is in its own alias set |
| JoinListener.JoinRowCount | src/main/java/com/ichorpowered/iplog/JoinListener.java:48-52 | the update branch keeps the number of rows, and the insert branch adds exactly one |
| JoinListener.JoinFrame | src/main/java/com/ichorpowered/iplog/JoinListener.java:44-53 | a join leaves the presence and the time of every other pair unchanged |
| JoinListener.RepeatedJoins | src/main/java/com/ichorpowered/iplog/JoinListener.java:48-52 | after joins of one pair at a sequence of times, the pair has one row holding the last time; the table grows by one row exactly when the pair was new |
| JoinListener.TwoPlayersShareAddress | src/main/java/com/ichorpowered/iplog/Storage.java:142-184 | when two players join from one address, the address lists both, each player's alias set is exactly the two of them, and the address's history maps each player to its join time |

## Left out

- The connection plumbing is not modelled: obtaining the `SqlService`, the H2 JDBC URL and the plugin-instance lookup. These are I/O and host services.
- SQL failures other than a duplicate key are not modelled. The store logs them. `isPresent` then returns false. A read query returns whatever it had collected before the failure, because its result collection is created before the `try` and returned after the `catch`; that result is empty when the connection or the query itself fails. A mutator error leaves the table as the statement left it, including a failure while closing the statement after the change was made. Only the duplicate-key failure of the INSERT is modelled, as a no-op.
- Type conversions are not modelled: `Timestamp.valueOf` and `toLocalDateTime` (times are integers), and `UUID.toString`, `UUID.fromString` and `InetAddress.getHostAddress` (ids and addresses are opaque strings in canonical form). The column widths `VARCHAR(45)` and `CHAR(36)` are therefore not enforced.
- The `ORDER BY INSTANT` of the two history queries is not modelled as an order. The rows are collected into a `HashMap`, which keeps no order. The scan's order is left arbitrary, and the result is proved not to depend on it.
- The permission lookup `hasPermission` is modelled as membership in a set of permission names given as a parameter. The clock `LocalDateTime.now()` is a parameter `now`. Nothing in the model requires times to increase.
- The race between two concurrent joins of one pair is not modelled. Between `isPresent` and `addConnection` another join could insert the pair; the model treats a join as one sequential step.
- The command layer is not modelled: argument parsing (`IpElement`), the alias, lookup, history, help and base commands, pagination, user-name lookup and scheduling. Their logic is rendering and trivial argument checks, including the removal of the caller's own id from an alias list.
- Plugin bootstrap and command registration in `IPLog` are not modelled. They are host-framework glue.
