# Name server of a distributed file-backup service, in Dafny

The name server is the directory node of a small backup system. It stores no
file bytes. It keeps three tables:

- USERS: accounts with a unique username.
- SERVERS: the registered storage servers and their addresses.
- FILES: one row per copy of a user's file. Each row records the server that
  holds the copy, whether it is the primary copy or a backup, a content hash
  and a modification time.

It also keeps one process-wide integer, the round-robin counter used to pick
the server that receives new data. Clients and storage servers call eleven
remote operations. Each one is an insert, a delete or a query over those
tables.

This project models that core as a pure state machine. `Schema.Store` holds
the three tables, the counter and the next AUTO_INCREMENT values. Each remote
operation is a function of the store: operations that change the store return
the new store (with a reply when the source returns one), and queries return
only the reply. `get_file_infos` is a method whose loop mirrors the source's.
The SQL is stated in sequence terms:

- a WHERE clause is `Seqs.Filter` over the table in storage order;
- `JOIN SERVERS USING (SERVERID)` looks up the address by SERVERID, and rows
  whose server is missing drop out (`Schema.Placed`);
- `ORDER BY ISBACKUP DESC` is a stable partition, backups first;
- `LIKE prefix%` is a sequence-prefix test;
- SELECT DISTINCT keeps the first occurrence of each value.

`Schema.Valid` collects the constraints the table definitions declare:

- USERID and FILEID are primary keys;
- the first 20 characters of USERNAME form a unique index;
- FILES.USERID and FILES.SERVERID are foreign keys.

Every operation's contract states that it preserves `Valid`.

Modules:

- `Seqs`: sequence helpers (`Filter`, `Distinct`, `Sum`) and facts about them.
- `Modular`: facts about `%` that the round-robin proofs need.
- `Schema`: the data model, `Valid` and `Restart`.
- `Credentials`: `save_user` and `get_user_credentials`.
- `Registry`: `get_next_server`, `register_file_server` and
  `unregister_file_server`.
- `Catalog`: `save_file_info`, `get_file_infos` and `remove_file`.
- `Coordinator`: the join queries `get_server_addresses`,
  `get_file_backup_servers` and `get_file_hashes`, plus lemmas that relate
  them to the catalog and the registry.

## Behaviour of `get_next_server` as written

The model follows the code of `get_next_server`, which does not pick servers
by registration rank:

- It advances the counter to `(counter + 1) % N` before any lookup. N is the
  number of SERVERS rows. The new value stays even if the lookup then fails.
- It fetches the address with SERVERID `counter + 1`, not by registration
  rank. When the SERVERIDs are exactly 1..N, N consecutive calls visit every
  server (`Registry.RoundRobinVisitsEveryServer`). When they are not, some
  lookups miss (`Registry.SparseIdsRaise`).
- The closed form (`Registry.RoundRobinCounter`, `Registry.RoundRobinReply`)
  holds for any number of calls and any counter value c. The counter can be N
  or more: `unregister_file_server` keeps it while N shrinks. From such a
  counter, N calls leave it at c mod N, not at c
  (`Registry.RoundRobinReturns`).
- With no servers, `% 0` raises ZeroDivisionError. It does not return an empty
  address.
- With SERVERIDs such as {1, 3}, the lookup of SERVERID 2 finds no row, and
  subscripting `None` raises TypeError (`Registry.SparseIdsRaise`).
- Neither exception is a mysql `Error`, so neither is caught. Both are modelled
  as `Schema.Reply.Raised`, a result distinct from any address.

## Model

| member | source | states |
|---|---|---|
| `Schema.Restart` | xmlrpc_server/name_server.py:59-67 | Starting the service keeps USERS and its next USERID. It empties SERVERS and FILES and sets the counter to 0. It keeps the store valid. |
| `Credentials.SaveUser` | xmlrpc_server/name_server.py:87-95 | If decoding the hash or the salt fails, the call raises and the store is unchanged. If the username's first 20 characters match a stored username's, it returns false and the store is unchanged. It returns true exactly when both decode and the name is free, and then it appends exactly one USERS row with the next USERID and the decoded hash and salt. Validity is preserved. |
| `Credentials.SaveUserTwice` | xmlrpc_server/name_server.py:17-20 | Saving a free name with decodable inputs returns true. Saving the same name again returns false and leaves the store as the first call left it. |
| `Credentials.GetUserCredentials` | xmlrpc_server/name_server.py:98-105 | Returns nothing exactly when no user has that exact name. Otherwise it returns the (USERID, PASSWORD, SALT) of a user with that name. |
| `Credentials.CredentialsUnique` | xmlrpc_server/name_server.py:98-103 | In a valid store, looking up a stored user's name returns that user's own credentials. |
| `Credentials.SaveThenLookup` | xmlrpc_server/name_server.py:87-103 | Round trip: saving a free name with decodable hash and salt succeeds, and the lookup then returns the new USERID with the decoded hash and salt. |
| `Registry.GetNextServer` | xmlrpc_server/name_server.py:70-84 | With no servers it raises ZeroDivision and changes nothing. Otherwise the counter becomes (old + 1) mod N, so 0 <= counter < N. The reply is the address of SERVERID counter + 1 when that row exists. If it does not, the call raises NoneSubscript with the counter already advanced. |
| `Registry.NextServerOnDenseIds` | xmlrpc_server/name_server.py:77-82 | With SERVERIDs 1..N and any counter c, one call moves the counter to (c + 1) mod N and returns the address of the SERVERID one above the new counter. |
| `Registry.RoundRobinCounter` | xmlrpc_server/name_server.py:77-78 | With N > 0 servers and any counter c, n >= 1 consecutive calls leave the counter at (c + n) mod N, whether or not the lookups hit; zero calls leave it at c. |
| `Registry.RoundRobinReply` | xmlrpc_server/name_server.py:77-82 | With SERVERIDs 1..N and any counter c, the i-th of n consecutive calls (counting from 0) returns the address of SERVERID (c + i + 1) mod N + 1. |
| `Registry.RoundRobinReturns` | xmlrpc_server/name_server.py:77-78 | N consecutive calls from counter c leave it at c mod N, which is c itself exactly when c was already in 0..N-1. |
| `Registry.RoundRobinVisitsEveryServer` | xmlrpc_server/name_server.py:70-82 | Fairness: with SERVERIDs 1..N and any counter c, N consecutive calls return every server's address and leave the counter at c mod N, so the state comes back unchanged when c was in 0..N-1. |
| `Registry.ThreeCallsFromFreshCounter` | xmlrpc_server/name_server.py:77-82 | With SERVERIDs 1, 2, 3 and counter 0, three calls return the addresses of servers 2, 3 and 1, in that order, whatever USERS and FILES hold. |
| `Registry.SparseIdsRaise` | xmlrpc_server/name_server.py:79-82 | The lookup is by SERVERID, not by rank. With SERVERIDs 1 and 3, the first call from counter 0 raises, and the counter is already 1. |
| `Registry.RegisterFileServer` | xmlrpc_server/name_server.py:119-126 | A SERVERID that is already registered gives false and an unchanged store (primary key, line 29). Otherwise the call adds exactly that one server with its address and changes nothing else. |
| `Registry.UnregisterFileServer` | xmlrpc_server/name_server.py:129-132 | Afterwards no FILES row references the server and the server is gone. Every other server keeps its address. Every row on another server keeps its multiplicity. The foreign keys still hold. |
| `Catalog.SaveFileInfo` | xmlrpc_server/name_server.py:135-143 | All or nothing. The call succeeds exactly when every row of the batch references an existing user and server (foreign keys, lines 50-51). On success it appends the whole batch in order with consecutive FILEIDs. On failure it returns false and FILES is unchanged. |
| `Catalog.ListFilesLength` | xmlrpc_server/name_server.py:146-157 | The listing for a sequence of prefixes has length equal to the sum of the per-prefix match counts. Overlapping prefixes are not deduplicated. |
| `Catalog.ListFilesMembership` | xmlrpc_server/name_server.py:150-153 | A (filename, lastModified) pair is listed exactly when, for some given prefix, a primary row of the user whose path starts with that prefix carries it. |
| `Catalog.GetFileInfos` | xmlrpc_server/name_server.py:146-157 | The loop of one query per prefix, appending each block in prefix order, yields exactly the listing `ListFiles` defines. |
| `Catalog.RemoveFile` | xmlrpc_server/name_server.py:172-179 | Returns true. Afterwards no row of that (user, path) remains, primary or backup. Every other row keeps its multiplicity. USERS and SERVERS are unchanged. |
| `Coordinator.GetServerAddresses` | xmlrpc_server/name_server.py:108-116 | The addresses are pairwise distinct. An address appears exactly when some registered server holding a primary row of the user has it. |
| `Coordinator.GetFileBackupServers` | xmlrpc_server/name_server.py:160-169 | One address per backup row of (user, path) on a registered server other than the requester: each address occurs exactly as many times as there are such rows on a server with that address, and the order is left open. An address appears exactly when such a row's server has it. |
| `Coordinator.RequesterExcluded` | xmlrpc_server/name_server.py:162-163 | An address that only the requesting server has is never returned, even when that server holds a backup row of the path. |
| `Coordinator.OrderByBackupDesc` | xmlrpc_server/name_server.py:184-185 | The ordering is a permutation of its input, and no primary row comes before a backup row. |
| `Coordinator.GetFileHashes` | xmlrpc_server/name_server.py:182-190 | Returns one (hash, address) per joined row of (user, path). The first k entries are, as a multiset, exactly the backup copies' entries, where k is the number of backup copies. The rest are exactly the primary copies' entries. |
| `Coordinator.PrimaryEntryLast` | xmlrpc_server/name_server.py:184-188 | When there is one primary copy, its (hash, address) is the last entry, after every backup's. |
| `Coordinator.RemoveThenNoHashes` | xmlrpc_server/name_server.py:172-190 | After removing (user, path), the hash query for it returns the empty sequence. |
| `Coordinator.RemoveKeepsOtherHashes` | xmlrpc_server/name_server.py:172-190 | Removing (user, path) does not change the hash query's answer for any other (user, path) pair. |
| `Coordinator.UnregisterHidesServer` | xmlrpc_server/name_server.py:129-132 | Take an address that only the unregistered server had. After unregistering, it appears in no active-server answer, no backup-server answer and no hash entry. |

## Left out

- Transport and process setup: the XML-RPC server, the function registration and the serve loop (lines 193-221) carry no logic of their own.
- Connection and schema setup: the MySQL connection and the CREATE/ALTER/DROP statements (lines 7-67). Only the constraints they declare are kept, in `Schema.Valid`. `Schema.Restart` keeps only the net effect of `init_db` and line 194.
- SERVERID was altered to AUTO_INCREMENT (line 34). Inserting 0 or NULL there would make MySQL generate an id. The model stores the caller's id as given.
- Base64 and UTF-8 decoding in `save_user` (line 90) is library code. It is the parameter `decode` of `Credentials.SaveUser`, and `None` stands for a decoding exception.
- Store and connectivity errors are not modelled. Every `except Error` handler turns them into false, `[]` or None. The modelled store never fails, so the only failures are the escaping exceptions of `get_next_server` and of decoding in `save_user`. `unregister_file_server` catches nothing, so a store error there would escape. That case is not modelled either.
- Commit and rollback durability, and any uncommitted leftovers after a caught error, are not modelled.
- Concurrency on the shared counter and the shared cursor is not modelled; the model is single-threaded.
- SQL detail:
  - `%` and `_` inside a directory prefix are not treated as LIKE wildcards; the model uses a plain prefix test.
  - `\` is LIKE's default escape character in MySQL, and the prefix is sent with it intact (line 152). So a prefix `a\b` matches paths starting `ab`, and a prefix ending in `\` makes the appended `%` a literal percent sign. The model's plain prefix test does neither.
  - TEXT length limits are not modelled: strings of any length are stored.
  - The column character set is not modelled. A string it cannot store makes the INSERTs at lines 89, 121 and 137 fail, and the call returns false; in the model those inserts succeed.
  - Collation, case-insensitive comparison and trailing-space padding of text comparisons are not modelled.
  - Rows of a query without ORDER BY come back in storage order. Rows with equal ISBACKUP keep storage order. The SQL leaves both open. The contracts of the join queries promise only what the SQL promises; `Catalog.GetFileInfos` is the exception below.
- Integer widths: the INT(11) and INTEGER columns are unbounded integers in the model. Out-of-range ids and times are not rejected.
- AUTO_INCREMENT gaps: the next USERID and FILEID advance only on a successful insert. MySQL may also use up values on failed inserts.
- ISBACKUP is an INTEGER column, modelled as a boolean. The model therefore cannot hold values other than 0 and 1. In the source, a row saved with ISBACKUP = 2 would match none of the `= 0` and `= 1` filters, yet would sort first in `get_file_hashes`; that case is not modelled.
- Catalog.GetFileInfos: its contract fixes storage order within each prefix's block, a modelling choice. The SELECT has no ORDER BY and promises no order within a block; the order of the blocks follows the prefixes, as the loop does.
