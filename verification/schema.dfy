/** The name server's persistent state: the three tables USERS, SERVERS and
    FILES, the process-wide round-robin counter, and the next values the
    store's AUTO_INCREMENT columns will hand out. `Valid` collects the
    primary-key, unique-index and foreign-key constraints the table
    definitions declare; every operation of the model preserves it. */
module Schema {
  import opened Seqs

  datatype Option<+T> = None | Some(value: T)

  /** A USERS row. `password` and `salt` are stored already decoded. */
  datatype User = User(id: int, username: string, password: string, salt: string)

  /** The columns of a FILES row that a caller supplies; FILEID is assigned
      by the store. */
  datatype FileInfo = FileInfo(
    userId: int,
    serverId: int,
    path: string,
    filename: string,
    isBackup: bool,
    hash: string,
    lastModified: int)

  /** A FILES row. */
  datatype FileRow = FileRow(
    id: int,
    userId: int,
    serverId: int,
    path: string,
    filename: string,
    isBackup: bool,
    hash: string,
    lastModified: int)

  /** The whole state. `servers` maps SERVERID to ADDRESS; `users` and
      `files` are kept in storage order; `counter` is the module-level
      round-robin counter; `nextUserId` and `nextFileId` are the values the
      next inserted USERS and FILES rows receive. */
  datatype Store = Store(
    users: seq<User>,
    servers: map<int, string>,
    files: seq<FileRow>,
    counter: int,
    nextUserId: int,
    nextFileId: int)

  /** Python exceptions that are not mysql `Error`s and therefore escape the
      `except Error` handlers; the remote caller receives a fault instead
      of a result. */
  datatype Fault =
    | ZeroDivision    // `% 0` when SERVERS is empty
    | NoneSubscript   // `None[0]` when no row matched a fetchone()
    | DecodeFailure   // base64 or UTF-8 decoding of a credential failed

  /** The outcome of a remote call that may escape with an exception. */
  datatype Reply<+T> = Ok(value: T) | Raised(fault: Fault)

  /** USERNAME is unique on its first 20 characters only. */
  const UsernameKeyLength: nat := 20

  /** The part of a username the unique index compares. */
  function UsernameKey(name: string): (k: string)
    ensures k <= name
    ensures |k| == if |name| <= UsernameKeyLength then |name| else UsernameKeyLength
  {
    if |name| <= UsernameKeyLength then name else name[..UsernameKeyLength]
  }

  /** Some USERS row has this USERID. */
  predicate HasUser(st: Store, id: int)
  {
    exists v :: v in st.users && v.id == id
  }

  /** A row survives `JOIN SERVERS USING (SERVERID)`. */
  predicate Placed(st: Store, f: FileRow)
  {
    f.serverId in st.servers
  }

  /** The ADDRESS the join pairs a placed row with. */
  function AddressOf(st: Store, f: FileRow): string
    requires Placed(st, f)
  {
    st.servers[f.serverId]
  }

  /** The FILES row the store builds from a supplied entry and a FILEID. */
  function Stored(id: int, e: FileInfo): FileRow
  {
    FileRow(id, e.userId, e.serverId, e.path, e.filename, e.isBackup, e.hash, e.lastModified)
  }

  /** The constraints of the schema, plus the facts about the store's
      counters that keep them satisfiable:
      - USERID is a primary key and USERNAME(20) a unique index;
      - FILEID is a primary key;
      - FILES.USERID references USERS, FILES.SERVERID references SERVERS
        (SERVERID is the key of the `servers` map, so unique by construction);
      - auto-increment values already used lie below the next one;
      - the round-robin counter is never negative. */
  predicate Valid(st: Store)
  {
    && (forall i, j :: 0 <= i < j < |st.users| ==>
          st.users[i].id != st.users[j].id
          && UsernameKey(st.users[i].username) != UsernameKey(st.users[j].username))
    && (forall v :: v in st.users ==> 0 < v.id < st.nextUserId)
    && (forall i, j :: 0 <= i < j < |st.files| ==> st.files[i].id != st.files[j].id)
    && (forall f :: f in st.files ==>
          0 < f.id < st.nextFileId && HasUser(st, f.userId) && f.serverId in st.servers)
    && st.nextUserId > 0 && st.nextFileId > 0
    && st.counter >= 0
  }

  /** The state after the service starts: `init_db` drops and recreates
      SERVERS and FILES, keeps USERS (and its AUTO_INCREMENT position), and
      the module-level counter starts at zero. */
  function Restart(st: Store): (r: Store)
    ensures r.users == st.users && r.nextUserId == st.nextUserId
    ensures |r.servers| == 0 && |r.files| == 0 && r.counter == 0
    ensures Valid(st) ==> Valid(r)
  {
    Store(st.users, map[], [], 0, st.nextUserId, 1)
  }

  /** Deleting FILES rows keeps the store valid as long as the rows that
      stay still reference existing servers. */
  lemma FilterFilesKeepsValid(st: Store, p: FileRow -> bool, r: Store)
    requires Valid(st)
    requires r.files == Filter(p, st.files)
    requires r.users == st.users && r.counter == st.counter
    requires r.nextUserId == st.nextUserId && r.nextFileId == st.nextFileId
    requires forall f :: f in r.files ==> f.serverId in r.servers
    ensures Valid(r)
  {
    var key := (f: FileRow) => f.id;
    assert DistinctKeys(key, st.files);
    FilterDistinctKeys(p, key, st.files);
    assert DistinctKeys(key, r.files);
    forall f | f in r.files
      ensures 0 < f.id < r.nextFileId && HasUser(r, f.userId)
    {
      assert f in st.files;
      assert HasUser(st, f.userId);
    }
  }
}
