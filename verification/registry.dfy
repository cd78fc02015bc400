/** The server registry: `register_file_server`, `unregister_file_server`
    and the round-robin placement of `get_next_server`. */
module Registry {
  import opened Seqs
  import opened Schema
  import opened Modular

  /** `get_next_server`. The counter is advanced modulo the number of
      SERVERS rows before anything is looked up (Python's `%` and Dafny's
      agree for a positive divisor; a zero divisor raises), and the address
      is then fetched by SERVERID = counter + 1, not by registration rank.
      A missing row makes `fetchone()` return None, and subscripting it
      raises; neither exception is a mysql `Error`, so both escape. */
  function GetNextServer(st: Store): (r: (Store, Reply<string>))
    ensures |st.servers| == 0 ==> r == (st, Raised(ZeroDivision))
    ensures |st.servers| > 0 ==>
              && r.0 == st.(counter := (st.counter + 1) % |st.servers|)
              && 0 <= r.0.counter < |st.servers|
    ensures r.1.Ok? <==> |st.servers| > 0 && r.0.counter + 1 in st.servers
    ensures r.1.Ok? ==> r.1.value == st.servers[r.0.counter + 1]
    ensures |st.servers| > 0 && r.0.counter + 1 !in st.servers ==> r.1 == Raised(NoneSubscript)
    ensures Valid(st) ==> Valid(r.0)
  {
    var n := |st.servers|;
    if n == 0 then
      (st, Raised(ZeroDivision))
    else
      var c := (st.counter + 1) % n;
      var st' := st.(counter := c);
      if c + 1 in st.servers then (st', Ok(st.servers[c + 1])) else (st', Raised(NoneSubscript))
  }

  /** `register_file_server`: insert a SERVERS row with the caller's
      SERVERID; a taken SERVERID violates the primary key and the call
      returns false without changing anything. */
  function RegisterFileServer(st: Store, id: int, address: string): (r: (Store, bool))
    ensures r.1 <==> id !in st.servers
    ensures !r.1 ==> r.0 == st
    ensures r.1 ==> |r.0.servers| == |st.servers| + 1
    ensures r.1 ==> r.0.servers.Keys == st.servers.Keys + {id} && r.0.servers[id] == address
    ensures forall k :: k in st.servers ==> k in r.0.servers && r.0.servers[k] == st.servers[k]
    ensures r.0.users == st.users && r.0.files == st.files && r.0.counter == st.counter
    ensures r.0.nextUserId == st.nextUserId && r.0.nextFileId == st.nextFileId
    ensures Valid(st) ==> Valid(r.0)
  {
    if id in st.servers then (st, false)
    else (st.(servers := st.servers[id := address]), true)
  }

  /** `unregister_file_server`: delete every FILES row on the server, then
      the SERVERS row itself. Nothing is caught here, so a store failure
      would escape; the model's store does not fail. */
  function UnregisterFileServer(st: Store, id: int): (r: Store)
    ensures r.servers.Keys == st.servers.Keys - {id}
    ensures forall k :: k in r.servers ==> r.servers[k] == st.servers[k]
    ensures forall f :: f in r.files ==> f.serverId != id
    ensures forall f: FileRow :: f.serverId != id ==> multiset(r.files)[f] == multiset(st.files)[f]
    ensures r.users == st.users && r.counter == st.counter
    ensures r.nextUserId == st.nextUserId && r.nextFileId == st.nextFileId
    ensures Valid(st) ==> Valid(r)
  {
    var files := Filter((f: FileRow) => f.serverId != id, st.files);
    var servers := map k | k in st.servers && k != id :: st.servers[k];
    assert servers.Keys == st.servers.Keys - {id};
    var r := st.(files := files, servers := servers);
    CascadeKeepsValid(st, id, r);
    r
  }

  /** The cascade removes exactly the rows that would dangle, so the
      foreign keys still hold once the SERVERS row is gone. */
  lemma CascadeKeepsValid(st: Store, id: int, r: Store)
    requires r.files == Filter((f: FileRow) => f.serverId != id, st.files)
    requires r.servers.Keys == st.servers.Keys - {id}
    requires r.users == st.users && r.counter == st.counter
    requires r.nextUserId == st.nextUserId && r.nextFileId == st.nextFileId
    ensures Valid(st) ==> Valid(r)
  {
    if Valid(st) {
      forall f | f in r.files
        ensures f.serverId in r.servers
      {
        assert f in st.files;
      }
      FilterFilesKeepsValid(st, (f: FileRow) => f.serverId != id, r);
    }
  }

  /** The replies of `n` consecutive `get_next_server` calls and the state
      they leave behind. */
  function CallNextServer(st: Store, n: nat): (r: (Store, seq<Reply<string>>))
    ensures |r.1| == n
    decreases n
  {
    if n == 0 then (st, [])
    else
      var first := GetNextServer(st);
      var rest := CallNextServer(first.0, n - 1);
      (rest.0, [first.1] + rest.1)
  }

  /** The SERVERIDs are exactly 1 .. N, so every `counter + 1` lookup hits. */
  ghost predicate DenseIds(servers: map<int, string>)
  {
    forall id :: id in servers <==> 1 <= id <= |servers|
  }

  /** On a registry with SERVERIDs 1 .. N, one call from any counter moves
      it to (counter + 1) mod N and finds that slot's row. */
  lemma NextServerOnDenseIds(st: Store)
    requires DenseIds(st.servers) && |st.servers| > 0
    ensures var c1 := (st.counter + 1) % |st.servers|;
            && c1 + 1 in st.servers
            && GetNextServer(st) == (st.(counter := c1), Ok(st.servers[c1 + 1]))
  {
  }

  /** One call, then the remaining ones. */
  lemma CallStep(st: Store, n: nat)
    requires n > 0
    ensures var first := GetNextServer(st);
            var rest := CallNextServer(first.0, n - 1);
            CallNextServer(st, n) == (rest.0, [first.1] + rest.1)
  {
  }

  /** From any counter c, n >= 1 consecutive calls leave the counter at
      (c + n) mod N, whether or not the lookups hit. */
  lemma {:induction false} RoundRobinCounter(st: Store, n: nat)
    requires |st.servers| > 0
    ensures CallNextServer(st, n).0
            == st.(counter := if n == 0 then st.counter else (st.counter + n) % |st.servers|)
    decreases n
  {
    if n > 0 {
      var N := |st.servers|;
      var s1 := GetNextServer(st).0;
      CallStep(st, n);
      RoundRobinCounter(s1, n - 1);
      if n > 1 {
        var k := s1.counter;
        assert k == (st.counter + 1) % N;
        ModAdvance(st.counter, n - 1, N);
        assert (k + (n - 1)) % N == (st.counter + n) % N;
      }
    }
  }

  /** On a registry with SERVERIDs 1 .. N, the i-th of n consecutive calls
      (counting from 0) from any counter c returns the address of SERVERID
      (c + i + 1) mod N + 1. */
  lemma {:induction false} RoundRobinReply(st: Store, n: nat, i: nat)
    requires DenseIds(st.servers) && |st.servers| > 0
    requires i < n
    ensures var id := (st.counter + i + 1) % |st.servers| + 1;
            id in st.servers && CallNextServer(st, n).1[i] == Ok(st.servers[id])
    decreases i
  {
    var N := |st.servers|;
    NextServerOnDenseIds(st);
    CallStep(st, n);
    if i > 0 {
      var s1 := GetNextServer(st).0;
      RoundRobinReply(s1, n - 1, i - 1);
      var k := s1.counter;
      assert k == (st.counter + 1) % N;
      ModAdvance(st.counter, i, N);
      assert (k + (i - 1) + 1) % N == (st.counter + i + 1) % N;
    }
  }

  /** On a registry with SERVERIDs 1 .. N, call number i of N consecutive
      calls from counter c (counting from 0) answers with the server whose
      SERVERID is one above the slot it lands on. */
  lemma RoundRobinHits(st: Store, id: int, i: int)
    requires DenseIds(st.servers) && |st.servers| > 0
    requires id in st.servers
    requires 0 <= i < |st.servers| && (st.counter + i + 1) % |st.servers| == id - 1
    ensures CallNextServer(st, |st.servers|).1[i] == Ok(st.servers[id])
  {
    RoundRobinReply(st, |st.servers|, i);
  }

  /** On a registry with SERVERIDs 1 .. N, N consecutive calls from any
      counter return the address of any given server. */
  lemma RoundRobinVisits(st: Store, id: int)
    requires DenseIds(st.servers) && |st.servers| > 0
    requires id in st.servers
    ensures Ok(st.servers[id]) in CallNextServer(st, |st.servers|).1
  {
    var N := |st.servers|;
    ModReach(st.counter, id - 1, N);
    RoundRobinHits(st, id, (id - 1 - st.counter - 1) % N);
  }

  /** N consecutive calls from counter c leave it at c mod N, which is c
      itself when c is already in 0 .. N-1. */
  lemma RoundRobinReturns(st: Store)
    requires |st.servers| > 0
    ensures var out := CallNextServer(st, |st.servers|);
            && out.0 == st.(counter := st.counter % |st.servers|)
            && (0 <= st.counter < |st.servers| ==> out.0 == st)
  {
    var N := |st.servers|;
    var c := st.counter;
    RoundRobinCounter(st, N);
    ModAddPeriod(c, N);
    assert CallNextServer(st, N).0.counter == c % N;
    if 0 <= c < N {
      ModInRange(c, N);
    }
  }

  /** Fairness: on a registry with SERVERIDs 1 .. N, N consecutive calls
      from any counter c return every server's address and leave the
      counter at c mod N, which is c itself when c is already in 0 .. N-1. */
  lemma RoundRobinVisitsEveryServer(st: Store)
    requires DenseIds(st.servers) && |st.servers| > 0
    ensures var out := CallNextServer(st, |st.servers|);
            && out.0 == st.(counter := st.counter % |st.servers|)
            && (0 <= st.counter < |st.servers| ==> out.0 == st)
            && forall id :: id in st.servers ==> Ok(st.servers[id]) in out.1
  {
    RoundRobinReturns(st);
    forall id | id in st.servers
      ensures Ok(st.servers[id]) in CallNextServer(st, |st.servers|).1
    {
      RoundRobinVisits(st, id);
    }
  }

  /** Before the slot passes N - 1 the i-th reply is SERVERID c + i + 2. */
  lemma RoundRobinReplyBelow(st: Store, n: nat, i: nat)
    requires DenseIds(st.servers) && |st.servers| > 0
    requires i < n && 0 <= st.counter + i + 1 < |st.servers|
    ensures CallNextServer(st, n).1[i] == Ok(st.servers[st.counter + i + 2])
  {
    RoundRobinReply(st, n, i);
    ModInRange(st.counter + i + 1, |st.servers|);
  }

  /** When the slot reaches N the reply wraps around to SERVERID 1. */
  lemma RoundRobinReplyWraps(st: Store, n: nat, i: nat)
    requires DenseIds(st.servers) && |st.servers| > 0
    requires i < n && st.counter + i + 1 == |st.servers|
    ensures CallNextServer(st, n).1[i] == Ok(st.servers[1])
  {
    RoundRobinReply(st, n, i);
    ModInRange(0, |st.servers|);
  }

  /** SERVERIDs 1, 2, 3 with addresses a, b, c form a dense registry. */
  lemma ThreeServers(a: string, b: string, c: string)
    ensures var m := map[1 := a, 2 := b, 3 := c];
            && |m| == 3 && DenseIds(m)
            && m[1] == a && m[2] == b && m[3] == c
  {
    var m := map[1 := a, 2 := b, 3 := c];
    assert m.Keys == {1, 2, 3};
  }

  /** Three servers with SERVERIDs 1, 2, 3 and a fresh counter: three calls
      return the addresses of 2, 3 and 1, in that order, whatever the other
      tables hold. */
  lemma ThreeCallsFromFreshCounter(st: Store, a: string, b: string, c: string)
    requires st.servers == map[1 := a, 2 := b, 3 := c] && st.counter == 0
    ensures CallNextServer(st, 3).1 == [Ok(b), Ok(c), Ok(a)]
  {
    ThreeServers(a, b, c);
    var out := CallNextServer(st, 3).1;
    RoundRobinReplyBelow(st, 3, 0);
    RoundRobinReplyBelow(st, 3, 1);
    RoundRobinReplyWraps(st, 3, 2);
    assert out == [out[0], out[1], out[2]];
  }

  /** The lookup is by SERVERID, not by rank: with SERVERIDs 1 and 3 the
      first call from a fresh counter asks for SERVERID 2 and raises, though
      two servers are registered, and the counter has already moved. */
  lemma SparseIdsRaise(a: string, c: string)
    ensures var st := Store([], map[1 := a, 3 := c], [], 0, 1, 1);
            GetNextServer(st) == (st.(counter := 1), Raised(NoneSubscript))
  {
    var st := Store([], map[1 := a, 3 := c], [], 0, 1, 1);
    assert st.servers.Keys == {1, 3};
    assert |st.servers| == 2;
  }
}
