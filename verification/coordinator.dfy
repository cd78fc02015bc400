/** The placement and replication queries that join FILES with SERVERS:
    `get_server_addresses`, `get_file_backup_servers` and `get_file_hashes`,
    and how they answer after the catalog and registry change. */
module Coordinator {
  import opened Seqs
  import opened Schema
  import Catalog
  import Registry

  /** The address each row is joined with, row by row. */
  function Addresses(st: Store, rows: seq<FileRow>): (r: seq<string>)
    requires forall f :: f in rows ==> Placed(st, f)
    ensures |r| == |rows|
    ensures forall i :: 0 <= i < |rows| ==> r[i] == AddressOf(st, rows[i])
  {
    seq(|rows|, i requires 0 <= i < |rows| => AddressOf(st, rows[i]))
  }

  /** A primary copy of one of the user's files on a registered server. */
  predicate Active(st: Store, u: int, f: FileRow)
  {
    f.userId == u && !f.isBackup && Placed(st, f)
  }

  /** `get_server_addresses`: SELECT DISTINCT over the joined primary rows
      of the user. */
  function GetServerAddresses(st: Store, u: int): (r: seq<string>)
    ensures forall i, j :: 0 <= i < j < |r| ==> r[i] != r[j]
    ensures forall a :: a in r <==> exists f :: f in st.files && Active(st, u, f) && AddressOf(st, f) == a
  {
    var rows := Filter((f: FileRow) => Active(st, u, f), st.files);
    var all := Addresses(st, rows);
    assert forall a :: a in all <==> exists f :: f in st.files && Active(st, u, f) && AddressOf(st, f) == a by {
      forall a
        ensures a in all <==> exists f :: f in st.files && Active(st, u, f) && AddressOf(st, f) == a
      {
        if a in all {
          var i :| 0 <= i < |all| && all[i] == a;
          assert rows[i] in rows;
        }
        if exists f :: f in st.files && Active(st, u, f) && AddressOf(st, f) == a {
          var f :| f in st.files && Active(st, u, f) && AddressOf(st, f) == a;
          assert f in rows;
          var i :| 0 <= i < |rows| && rows[i] == f;
          assert all[i] == a;
        }
      }
    }
    Distinct(all)
  }

  /** A backup copy of (user, path) on a registered server other than the
      requesting one. */
  predicate BackupElsewhere(st: Store, requester: int, u: int, path: string, f: FileRow)
  {
    f.isBackup && f.serverId != requester && f.userId == u && f.path == path && Placed(st, f)
  }

  /** The rows `get_file_backup_servers` selects, in storage order. */
  function BackupRows(st: Store, requester: int, u: int, path: string): (rows: seq<FileRow>)
    ensures forall f :: f in rows <==> f in st.files && BackupElsewhere(st, requester, u, path, f)
  {
    Filter((f: FileRow) => BackupElsewhere(st, requester, u, path, f), st.files)
  }

  /** A backup row of (user, path) elsewhere, on a server with address `a`. */
  predicate BackupAt(st: Store, requester: int, u: int, path: string, a: string, f: FileRow)
  {
    BackupElsewhere(st, requester, u, path, f) && AddressOf(st, f) == a
  }

  /** A row joined with a server whose address is `a`. */
  predicate AtAddress(st: Store, a: string, f: FileRow)
  {
    Placed(st, f) && AddressOf(st, f) == a
  }

  /** Joining rows with their addresses yields `a` once per row on a server
      with address `a`. */
  lemma {:induction false} AddressMultiplicity(st: Store, rows: seq<FileRow>, a: string)
    requires forall f :: f in rows ==> Placed(st, f)
    ensures multiset(Addresses(st, rows))[a] == |Filter((f: FileRow) => AtAddress(st, a, f), rows)|
    decreases |rows|
  {
    if |rows| > 0 {
      assert rows == [rows[0]] + rows[1..];
      AddressMultiplicity(st, rows[1..], a);
      AddressesCons(st, rows[0], rows[1..], a);
    }
  }

  /** The backup query's answer holds `a` once per selected row on a server
      with address `a`. */
  lemma BackupAddressCount(st: Store, requester: int, u: int, path: string, a: string)
    ensures multiset(Addresses(st, BackupRows(st, requester, u, path)))[a]
            == |Filter((f: FileRow) => BackupAt(st, requester, u, path, a, f), st.files)|
  {
    FilterTwice((f: FileRow) => AtAddress(st, a, f),
                (f: FileRow) => BackupElsewhere(st, requester, u, path, f),
                (f: FileRow) => BackupAt(st, requester, u, path, a, f), st.files);
    AddressMultiplicity(st, BackupRows(st, requester, u, path), a);
  }

  /** Joining one more row adds one occurrence of its address. */
  lemma AddressesCons(st: Store, x: FileRow, rest: seq<FileRow>, a: string)
    requires Placed(st, x)
    requires forall f :: f in rest ==> Placed(st, f)
    ensures multiset(Addresses(st, [x] + rest))[a]
            == (if AddressOf(st, x) == a then 1 else 0) + multiset(Addresses(st, rest))[a]
  {
    assert Addresses(st, [x] + rest) == [AddressOf(st, x)] + Addresses(st, rest);
  }

  /** `get_file_backup_servers`: one address per backup row of (user, path)
      held by a server other than the requester; no deduplication, and the
      order is left open. */
  function GetFileBackupServers(st: Store, requester: int, u: int, path: string): (r: seq<string>)
    ensures |r| == |BackupRows(st, requester, u, path)|
    ensures forall a :: a in r <==>
              exists f :: f in st.files && BackupElsewhere(st, requester, u, path, f) && AddressOf(st, f) == a
    ensures forall a :: multiset(r)[a] ==
              |Filter((f: FileRow) => BackupAt(st, requester, u, path, a, f), st.files)|
  {
    var rows := BackupRows(st, requester, u, path);
    var r := Addresses(st, rows);
    assert forall a :: multiset(r)[a] ==
             |Filter((f: FileRow) => BackupAt(st, requester, u, path, a, f), st.files)| by {
      forall a
        ensures multiset(r)[a] == |Filter((f: FileRow) => BackupAt(st, requester, u, path, a, f), st.files)|
      {
        BackupAddressCount(st, requester, u, path, a);
      }
    }
    assert forall a :: a in r <==>
             exists f :: f in st.files && BackupElsewhere(st, requester, u, path, f) && AddressOf(st, f) == a by {
      forall a
        ensures a in r <==>
                exists f :: f in st.files && BackupElsewhere(st, requester, u, path, f) && AddressOf(st, f) == a
      {
        if a in r {
          var i :| 0 <= i < |r| && r[i] == a;
          assert rows[i] in rows;
        }
        if exists f :: f in st.files && BackupElsewhere(st, requester, u, path, f) && AddressOf(st, f) == a {
          var f :| f in st.files && BackupElsewhere(st, requester, u, path, f) && AddressOf(st, f) == a;
          assert f in rows;
          var i :| 0 <= i < |rows| && rows[i] == f;
          assert r[i] == a;
        }
      }
    }
    r
  }

  /** The requester is never offered as a backup target: an address only the
      requesting server has cannot appear, even when that server holds a
      backup row of the path. */
  lemma RequesterExcluded(st: Store, requester: int, u: int, path: string)
    requires requester in st.servers
    requires forall k :: k in st.servers && k != requester ==> st.servers[k] != st.servers[requester]
    ensures st.servers[requester] !in GetFileBackupServers(st, requester, u, path)
  {
  }

  /** `ORDER BY ISBACKUP DESC`: backups first, then primaries; within each
      group the storage order is kept (the SQL leaves it open). */
  function OrderByBackupDesc(rows: seq<FileRow>): (r: seq<FileRow>)
    ensures multiset(r) == multiset(rows)
    ensures forall i, j :: 0 <= i < j < |r| && r[j].isBackup ==> r[i].isBackup
  {
    var backups := Filter((f: FileRow) => f.isBackup, rows);
    var primaries := Filter((f: FileRow) => !f.isBackup, rows);
    assert multiset(backups + primaries) == multiset(rows) by {
      forall f: FileRow
        ensures multiset(backups + primaries)[f] == multiset(rows)[f]
      {
      }
    }
    backups + primaries
  }

  /** A copy of (user, path), primary or backup, on a registered server. */
  predicate Replica(st: Store, u: int, path: string, f: FileRow)
  {
    f.userId == u && f.path == path && Placed(st, f)
  }

  /** The joined rows `get_file_hashes` selects, before ordering. */
  function Replicas(st: Store, u: int, path: string): (rows: seq<FileRow>)
    ensures forall f :: f in rows ==> Placed(st, f)
  {
    Filter((f: FileRow) => Replica(st, u, path, f), st.files)
  }

  /** The replicas of (user, path) with the given ISBACKUP flag. */
  function ReplicasFlagged(st: Store, u: int, path: string, backup: bool): (rows: seq<FileRow>)
    ensures forall f :: f in rows <==> f in st.files && Replica(st, u, path, f) && f.isBackup == backup
  {
    Filter((f: FileRow) => Replica(st, u, path, f) && f.isBackup == backup, st.files)
  }

  /** The (FILEHASH, ADDRESS) pair reported for each row. */
  function Entries(st: Store, rows: seq<FileRow>): (r: seq<(string, string)>)
    requires forall f :: f in rows ==> Placed(st, f)
    ensures |r| == |rows|
    ensures forall i :: 0 <= i < |rows| ==> r[i] == (rows[i].hash, AddressOf(st, rows[i]))
  {
    seq(|rows|, i requires 0 <= i < |rows| => (rows[i].hash, AddressOf(st, rows[i])))
  }

  /** `get_file_hashes`: one (hash, address) per joined row of (user, path);
      the first entries are exactly those of the backup copies, in some
      order, and the remaining ones exactly those of the primary copies. */
  function GetFileHashes(st: Store, u: int, path: string): (r: seq<(string, string)>)
    ensures var backups := ReplicasFlagged(st, u, path, true);
            var primaries := ReplicasFlagged(st, u, path, false);
            && |r| == |backups| + |primaries|
            && multiset(r[..|backups|]) == multiset(Entries(st, backups))
            && multiset(r[|backups|..]) == multiset(Entries(st, primaries))
  {
    var ordered := OrderByBackupDesc(Replicas(st, u, path));
    var backups := ReplicasFlagged(st, u, path, true);
    var primaries := ReplicasFlagged(st, u, path, false);
    HashesSplit(st, u, path);
    var r := Entries(st, ordered);
    EntriesConcat(st, backups, primaries);
    assert r[..|backups|] == Entries(st, backups);
    assert r[|backups|..] == Entries(st, primaries);
    r
  }

  lemma EntriesConcat(st: Store, a: seq<FileRow>, b: seq<FileRow>)
    requires forall f :: f in a ==> Placed(st, f)
    requires forall f :: f in b ==> Placed(st, f)
    ensures Entries(st, a + b) == Entries(st, a) + Entries(st, b)
  {
  }

  /** The ordered rows are the backup replicas followed by the primary ones. */
  lemma HashesSplit(st: Store, u: int, path: string)
    ensures OrderByBackupDesc(Replicas(st, u, path))
            == ReplicasFlagged(st, u, path, true) + ReplicasFlagged(st, u, path, false)
  {
    var sel := (f: FileRow) => Replica(st, u, path, f);
    FilterTwice((f: FileRow) => f.isBackup, sel,
                (f: FileRow) => Replica(st, u, path, f) && f.isBackup == true, st.files);
    FilterTwice((f: FileRow) => !f.isBackup, sel,
                (f: FileRow) => Replica(st, u, path, f) && f.isBackup == false, st.files);
  }

  /** With a single primary copy, its entry is the last one reported, after
      every backup's. */
  lemma PrimaryEntryLast(st: Store, u: int, path: string)
    requires |ReplicasFlagged(st, u, path, false)| == 1
    ensures var r := GetFileHashes(st, u, path);
            var f := ReplicasFlagged(st, u, path, false)[0];
            |r| > 0 && r[|r| - 1] == (f.hash, AddressOf(st, f))
  {
    var r := GetFileHashes(st, u, path);
    var k := |ReplicasFlagged(st, u, path, true)|;
    var primaries := ReplicasFlagged(st, u, path, false);
    assert primaries[0] in primaries;
    var e := Entries(st, primaries);
    assert e == [e[0]];
    assert r[k..] == [r[|r| - 1]];
    assert multiset([r[|r| - 1]]) == multiset([e[0]]);
    assert r[|r| - 1] in multiset([e[0]]);
  }

  /** After `remove_file(u, path)` no copy of the path is reported. */
  lemma RemoveThenNoHashes(st: Store, u: int, path: string)
    ensures GetFileHashes(Catalog.RemoveFile(st, u, path).0, u, path) == []
  {
    var st' := Catalog.RemoveFile(st, u, path).0;
    FilterNone((f: FileRow) => Replica(st', u, path, f) && f.isBackup == true, st'.files);
    FilterNone((f: FileRow) => Replica(st', u, path, f) && f.isBackup == false, st'.files);
  }

  /** `remove_file(u, path)` leaves every other file's hashes as they were. */
  lemma RemoveKeepsOtherHashes(st: Store, u: int, path: string, u': int, path': string)
    requires u != u' || path != path'
    ensures GetFileHashes(Catalog.RemoveFile(st, u, path).0, u', path') == GetFileHashes(st, u', path')
  {
    var st' := Catalog.RemoveFile(st, u, path).0;
    var keep := (f: FileRow) => !Catalog.OfFile(u, path, f);
    assert st'.files == Filter(keep, st.files);
    FilterTwice((f: FileRow) => Replica(st', u', path', f), keep,
                (f: FileRow) => Replica(st, u', path', f), st.files);
  }

  /** After `unregister_file_server(s)` no query reports a copy on `s`:
      an address only `s` had is gone from every answer. */
  lemma UnregisterHidesServer(st: Store, s: int, u: int, requester: int, path: string)
    requires s in st.servers
    requires forall k :: k in st.servers && k != s ==> st.servers[k] != st.servers[s]
    ensures var st' := Registry.UnregisterFileServer(st, s);
            && st.servers[s] !in GetServerAddresses(st', u)
            && st.servers[s] !in GetFileBackupServers(st', requester, u, path)
            && forall e :: e in GetFileHashes(st', u, path) ==> e.1 != st.servers[s]
  {
    var st' := Registry.UnregisterFileServer(st, s);
    var r := GetFileHashes(st', u, path);
    var ordered := OrderByBackupDesc(Replicas(st', u, path));
    forall e | e in r
      ensures e.1 != st.servers[s]
    {
      var i :| 0 <= i < |r| && r[i] == e;
      assert ordered[i] in multiset(Replicas(st', u, path));
    }
  }
}
