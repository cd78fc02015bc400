/** The file catalog: `save_file_info`, `get_file_infos` and `remove_file`. */
module Catalog {
  import opened Seqs
  import opened Schema

  /** A supplied entry satisfies both foreign keys of FILES. */
  predicate References(st: Store, e: FileInfo)
  {
    HasUser(st, e.userId) && e.serverId in st.servers
  }

  /** The rows a batch becomes, numbered from `first` in batch order. */
  function Numbered(first: int, batch: seq<FileInfo>): (rows: seq<FileRow>)
    ensures |rows| == |batch|
    ensures forall i :: 0 <= i < |batch| ==> rows[i] == Stored(first + i, batch[i])
  {
    seq(|batch|, i requires 0 <= i < |batch| => Stored(first + i, batch[i]))
  }

  /** `save_file_info`: one multi-row INSERT of the whole batch. A row that
      breaks a foreign key fails the statement, the handler returns false,
      and no row of the batch is stored; otherwise every row is appended
      with consecutive FILEIDs. An empty batch stores nothing and succeeds. */
  function SaveFileInfo(st: Store, batch: seq<FileInfo>): (r: (Store, bool))
    ensures r.1 <==> forall i :: 0 <= i < |batch| ==> References(st, batch[i])
    ensures !r.1 ==> r.0 == st
    ensures r.1 ==> |r.0.files| == |st.files| + |batch| && r.0.files[..|st.files|] == st.files
    ensures r.1 ==> forall i :: 0 <= i < |batch| ==>
                      r.0.files[|st.files| + i] == Stored(st.nextFileId + i, batch[i])
    ensures r.1 ==> r.0.nextFileId == st.nextFileId + |batch|
    ensures r.0.users == st.users && r.0.servers == st.servers
    ensures r.0.counter == st.counter && r.0.nextUserId == st.nextUserId
    ensures Valid(st) ==> Valid(r.0)
  {
    if forall i :: 0 <= i < |batch| ==> References(st, batch[i]) then
      var rows := Numbered(st.nextFileId, batch);
      var st' := st.(files := st.files + rows, nextFileId := st.nextFileId + |batch|);
      assert st'.files[..|st.files|] == st.files;
      AppendKeepsValid(st, batch, st');
      (st', true)
    else
      (st, false)
  }

  lemma AppendKeepsValid(st: Store, batch: seq<FileInfo>, r: Store)
    requires forall i :: 0 <= i < |batch| ==> References(st, batch[i])
    requires r == st.(files := st.files + Numbered(st.nextFileId, batch),
                      nextFileId := st.nextFileId + |batch|)
    ensures Valid(st) ==> Valid(r)
  {
    if Valid(st) {
      var rows := Numbered(st.nextFileId, batch);
      forall f | f in r.files
        ensures 0 < f.id < r.nextFileId && HasUser(r, f.userId) && f.serverId in r.servers
      {
        if f !in st.files {
          var k :| 0 <= k < |rows| && rows[k] == f;
          assert References(st, batch[k]);
        }
      }
      forall i, j | 0 <= i < j < |r.files|
        ensures r.files[i].id != r.files[j].id
      {
        if i < |st.files| && j >= |st.files| {
          assert r.files[i] == st.files[i] && st.files[i] in st.files;
        }
      }
    }
  }

  /** A FILES row is listed for a directory prefix: a primary copy of the
      user's whose path starts with the prefix (`PATH LIKE prefix%`). */
  predicate Listed(u: int, prefix: string, f: FileRow)
  {
    !f.isBackup && f.userId == u && prefix <= f.path
  }

  /** The rows one prefix's query selects, in storage order. */
  function Matches(st: Store, u: int, prefix: string): (rows: seq<FileRow>)
    ensures forall f :: f in rows <==> f in st.files && Listed(u, prefix, f)
  {
    Filter((f: FileRow) => Listed(u, prefix, f), st.files)
  }

  /** The (FILENAME, LASTMODIFIED) pair the query returns for a row. */
  function Info(f: FileRow): (string, int)
  {
    (f.filename, f.lastModified)
  }

  function Infos(rows: seq<FileRow>): (r: seq<(string, int)>)
    ensures |r| == |rows|
    ensures forall i :: 0 <= i < |rows| ==> r[i] == Info(rows[i])
  {
    seq(|rows|, i requires 0 <= i < |rows| => Info(rows[i]))
  }

  /** The number of rows each prefix matches, prefix by prefix. */
  function MatchCounts(st: Store, u: int, prefixes: seq<string>): (counts: seq<nat>)
    ensures |counts| == |prefixes|
  {
    seq(|prefixes|, j requires 0 <= j < |prefixes| => |Matches(st, u, prefixes[j])|)
  }

  /** The listing for a sequence of prefixes: the first prefix's matches,
      then the rest's. */
  function ListFiles(st: Store, u: int, prefixes: seq<string>): seq<(string, int)>
    decreases |prefixes|
  {
    if |prefixes| == 0 then []
    else Infos(Matches(st, u, prefixes[0])) + ListFiles(st, u, prefixes[1..])
  }

  /** The listing is as long as the per-prefix counts added up, so
      overlapping prefixes repeat rows instead of merging them. */
  lemma {:induction false} ListFilesLength(st: Store, u: int, prefixes: seq<string>)
    ensures |ListFiles(st, u, prefixes)| == Sum(MatchCounts(st, u, prefixes))
    decreases |prefixes|
  {
    if |prefixes| > 0 {
      ListFilesLength(st, u, prefixes[1..]);
      assert MatchCounts(st, u, prefixes)[1..] == MatchCounts(st, u, prefixes[1..]);
    }
  }

  /** Some primary row of the user under `prefix` carries this entry. */
  ghost predicate ListedUnder(st: Store, u: int, prefix: string, x: (string, int))
  {
    exists f :: f in st.files && Listed(u, prefix, f) && x == Info(f)
  }

  /** An entry is listed exactly when, for some prefix, a primary row of the
      user under that prefix carries that name and time. */
  lemma {:induction false} ListFilesMembership(st: Store, u: int, prefixes: seq<string>, x: (string, int))
    ensures x in ListFiles(st, u, prefixes) <==>
              exists j :: 0 <= j < |prefixes| && ListedUnder(st, u, prefixes[j], x)
    decreases |prefixes|
  {
    if |prefixes| > 0 {
      ListFilesMembership(st, u, prefixes[1..], x);
      InfosMembership(st, u, prefixes[0], x);
      if exists j :: 0 <= j < |prefixes| && ListedUnder(st, u, prefixes[j], x) {
        var j :| 0 <= j < |prefixes| && ListedUnder(st, u, prefixes[j], x);
        if j > 0 {
          assert prefixes[1..][j - 1] == prefixes[j];
        }
      }
    }
  }

  /** One prefix's block holds exactly the entries listed under it. */
  lemma InfosMembership(st: Store, u: int, prefix: string, x: (string, int))
    ensures x in Infos(Matches(st, u, prefix)) <==> ListedUnder(st, u, prefix, x)
  {
    var rows := Matches(st, u, prefix);
    var head := Infos(rows);
    if x in head {
      var i :| 0 <= i < |head| && head[i] == x;
      assert rows[i] in rows;
    }
    if ListedUnder(st, u, prefix, x) {
      var f :| f in st.files && Listed(u, prefix, f) && x == Info(f);
      assert f in rows;
      var i :| 0 <= i < |rows| && rows[i] == f;
      assert head[i] == x;
    }
  }

  /** Appending one prefix appends its matches. */
  lemma {:induction false} ListFilesSnoc(st: Store, u: int, prefixes: seq<string>, p: string)
    ensures ListFiles(st, u, prefixes + [p]) == ListFiles(st, u, prefixes) + Infos(Matches(st, u, p))
    decreases |prefixes|
  {
    if |prefixes| == 0 {
      assert prefixes + [p] == [p];
      assert ListFiles(st, u, [p][1..]) == [];
    } else {
      assert (prefixes + [p])[1..] == prefixes[1..] + [p];
      ListFilesSnoc(st, u, prefixes[1..], p);
    }
  }

  /** The listing of a longer prefix of the arguments extends the shorter
      one's by the next prefix's block. */
  lemma ListFilesStep(st: Store, u: int, prefixes: seq<string>, k: nat)
    requires k < |prefixes|
    ensures ListFiles(st, u, prefixes[..k + 1])
            == ListFiles(st, u, prefixes[..k]) + Infos(Matches(st, u, prefixes[k]))
  {
    assert prefixes[..k + 1] == prefixes[..k] + [prefixes[k]];
    ListFilesSnoc(st, u, prefixes[..k], prefixes[k]);
  }

  /** `get_file_infos`: the loop of the source, running one query per
      prefix and appending its rows to the running result. */
  method GetFileInfos(st: Store, u: int, prefixes: seq<string>) returns (infos: seq<(string, int)>)
    ensures infos == ListFiles(st, u, prefixes)
    ensures |infos| == Sum(MatchCounts(st, u, prefixes))
  {
    infos := [];
    var k := 0;
    while k < |prefixes|
      invariant 0 <= k <= |prefixes|
      invariant infos == ListFiles(st, u, prefixes[..k])
    {
      var block := Infos(Matches(st, u, prefixes[k]));
      ListFilesStep(st, u, prefixes, k);
      infos := infos + block;
      k := k + 1;
    }
    assert prefixes[..k] == prefixes;
    ListFilesLength(st, u, prefixes);
  }

  /** A row belongs to the file identified by (USERID, PATH). */
  predicate OfFile(u: int, path: string, f: FileRow)
  {
    f.userId == u && f.path == path
  }

  /** `remove_file`: delete every row of (user, path), primary and backups
      alike; other rows stay as they were. */
  function RemoveFile(st: Store, u: int, path: string): (r: (Store, bool))
    ensures r.1
    ensures forall f :: f in r.0.files ==> !OfFile(u, path, f)
    ensures forall f: FileRow :: !OfFile(u, path, f) ==> multiset(r.0.files)[f] == multiset(st.files)[f]
    ensures r.0.users == st.users && r.0.servers == st.servers && r.0.counter == st.counter
    ensures r.0.nextUserId == st.nextUserId && r.0.nextFileId == st.nextFileId
    ensures Valid(st) ==> Valid(r.0)
  {
    var keep := (f: FileRow) => !OfFile(u, path, f);
    var st' := st.(files := Filter(keep, st.files));
    assert Valid(st) ==> Valid(st') by {
      if Valid(st) {
        FilterFilesKeepsValid(st, keep, st');
      }
    }
    (st', true)
  }
}
