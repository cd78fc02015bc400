/** The credential store: `save_user` and `get_user_credentials`. */
module Credentials {
  import opened Schema

  /** What `get_user_credentials` hands back: USERID, PASSWORD, SALT. */
  datatype Credentials = Credentials(id: int, password: string, salt: string)

  /** Some stored username collides with `name` on the unique index. */
  predicate NameTaken(st: Store, name: string)
  {
    exists v :: v in st.users && UsernameKey(v.username) == UsernameKey(name)
  }

  /** `save_user`: decode the transport-encoded hash and salt (the base64
      and UTF-8 decoding is the parameter `decode`; `None` is a decoding
      error, which escapes because it is not a mysql `Error`), then insert a
      USERS row unless the username's indexed prefix is already taken. */
  function SaveUser(st: Store, username: string, hashPassword: string, salt: string,
                    decode: string -> Option<string>): (r: (Store, Reply<bool>))
    ensures (decode(hashPassword).None? || decode(salt).None?) ==> r == (st, Raised(DecodeFailure))
    ensures r.1 == Ok(false) <==>
              decode(hashPassword).Some? && decode(salt).Some? && NameTaken(st, username)
    ensures r.1 == Ok(true) <==>
              decode(hashPassword).Some? && decode(salt).Some? && !NameTaken(st, username)
    ensures !(r.1 == Ok(true)) ==> r.0 == st
    ensures r.1 == Ok(true) ==>
              && r.0.users == st.users + [User(st.nextUserId, username,
                                               decode(hashPassword).value, decode(salt).value)]
              && r.0.nextUserId == st.nextUserId + 1
              && r.0.servers == st.servers && r.0.files == st.files
              && r.0.counter == st.counter && r.0.nextFileId == st.nextFileId
    ensures Valid(st) ==> Valid(r.0)
  {
    var hashText := decode(hashPassword);
    var saltText := decode(salt);
    if hashText.None? || saltText.None? then
      (st, Raised(DecodeFailure))
    else if NameTaken(st, username) then
      (st, Ok(false))
    else
      var v := User(st.nextUserId, username, hashText.value, saltText.value);
      var st' := st.(users := st.users + [v], nextUserId := st.nextUserId + 1);
      assert Valid(st) ==> Valid(st') by {
        if Valid(st) {
          forall f | f in st'.files
            ensures HasUser(st', f.userId)
          {
            var w :| w in st.users && w.id == f.userId;
            assert w in st'.users;
          }
          forall w | w in st'.users
            ensures 0 < w.id < st'.nextUserId
          {
            if w != v {
              assert w in st.users;
            }
          }
          forall i, j | 0 <= i < j < |st'.users|
            ensures st'.users[i].id != st'.users[j].id
            ensures UsernameKey(st'.users[i].username) != UsernameKey(st'.users[j].username)
          {
            if j == |st.users| {
              assert st'.users[i] == st.users[i] && st.users[i] in st.users;
            }
          }
        }
      }
      (st', Ok(true))
  }

  /** The first USERS row whose username is exactly `name`
      (`fetchone()` of the lookup query). */
  function FindUser(users: seq<User>, name: string): (r: Option<User>)
    ensures r.None? <==> forall v :: v in users ==> v.username != name
    ensures r.Some? ==> r.value in users && r.value.username == name
    ensures r.Some? ==> exists k :: 0 <= k < |users| && users[k] == r.value
                          && forall i :: 0 <= i < k ==> users[i].username != name
  {
    if |users| == 0 then None
    else if users[0].username == name then Some(users[0])
    else
      var r := FindUser(users[1..], name);
      assert users == [users[0]] + users[1..];
      if r.Some? then
        var k :| 0 <= k < |users[1..]| && users[1..][k] == r.value
                 && forall i :: 0 <= i < k ==> users[1..][i].username != name;
        assert users[k + 1] == r.value;
        r
      else r
  }

  /** `get_user_credentials`: the (USERID, PASSWORD, SALT) of the user with
      exactly this name, or `None` when there is none. */
  function GetUserCredentials(st: Store, username: string): (r: Option<Credentials>)
    ensures r.None? <==> forall v :: v in st.users ==> v.username != username
    ensures r.Some? ==> exists v :: v in st.users && v.username == username
                          && r.value == Credentials(v.id, v.password, v.salt)
  {
    match FindUser(st.users, username)
    case None => None
    case Some(v) => Some(Credentials(v.id, v.password, v.salt))
  }

  /** In a valid store the lookup finds the one user with that name. */
  lemma CredentialsUnique(st: Store, k: int)
    requires Valid(st)
    requires 0 <= k < |st.users|
    ensures GetUserCredentials(st, st.users[k].username)
            == Some(Credentials(st.users[k].id, st.users[k].password, st.users[k].salt))
  {
    var v := st.users[k];
    var r := FindUser(st.users, v.username);
    var k' :| 0 <= k' < |st.users| && st.users[k'] == r.value
              && forall i :: 0 <= i < k' ==> st.users[i].username != v.username;
  }

  /** Round trip: saving a free username with decodable hash and salt
      succeeds, and `get_user_credentials` then returns the new USERID with
      the decoded hash and salt. */
  lemma SaveThenLookup(st: Store, username: string, hashPassword: string, salt: string,
                       decode: string -> Option<string>)
    requires Valid(st)
    requires decode(hashPassword).Some? && decode(salt).Some? && !NameTaken(st, username)
    ensures SaveUser(st, username, hashPassword, salt, decode).1 == Ok(true)
    ensures GetUserCredentials(SaveUser(st, username, hashPassword, salt, decode).0, username)
            == Some(Credentials(st.nextUserId, decode(hashPassword).value, decode(salt).value))
  {
    var st' := SaveUser(st, username, hashPassword, salt, decode).0;
    CredentialsUnique(st', |st.users|);
  }

  /** Registering a free name twice succeeds once: the first call returns
      true, the second returns false and leaves the store as the first call
      left it. */
  lemma SaveUserTwice(st: Store, username: string, h1: string, s1: string, h2: string, s2: string,
                      decode: string -> Option<string>)
    requires decode(h1).Some? && decode(s1).Some? && !NameTaken(st, username)
    requires decode(h2).Some? && decode(s2).Some?
    ensures var first := SaveUser(st, username, h1, s1, decode);
            && first.1 == Ok(true)
            && SaveUser(first.0, username, h2, s2, decode) == (first.0, Ok(false))
  {
    var st1 := SaveUser(st, username, h1, s1, decode).0;
    assert st1.users[|st.users|] in st1.users;
  }
}
