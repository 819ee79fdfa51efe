/** Accounts: the user table, its username index, and logging in. */
module Users {
  import opened Base
  import opened Model

  datatype Accounts = Accounts(users: map<string, User>, userByName: map<string, string>)

  datatype AuthResult =
    | Granted(user: User)
    | UsernameTaken
    | UserNotFound
    | InvalidPassword
    | HashFailed

  /** `verify(hash, password)` is bcrypt's comparison; `hash` is what hashing the new
      password gave, `None` when bcrypt refused it. */
  function Register(a: Accounts, username: string, hash: Option<string>, id: string, now: int): (Accounts, AuthResult) {
    if username in a.userByName then (a, UsernameTaken)
    else if hash.None? then (a, HashFailed)
    else
      var user := User(id, username, hash.value, now);
      (Accounts(a.users[id := user], a.userByName[username := id]), Granted(user))
  }

  /** Go's map read of a missing id gives the zero user. */
  function UserOrZero(a: Accounts, id: string): User {
    if id in a.users then a.users[id] else ZERO_USER
  }

  function Authenticate(verify: (string, string) -> bool, a: Accounts, username: string, password: string): AuthResult {
    if username !in a.userByName then UserNotFound
    else
      var user := UserOrZero(a, a.userByName[username]);
      if verify(user.passwordHash, password) then Granted(user) else InvalidPassword
  }

  /** The index and the table are inverse to each other on names and ids. */
  ghost predicate Bijective(a: Accounts) {
    && (forall n :: n in a.userByName ==> a.userByName[n] in a.users && a.users[a.userByName[n]].username == n)
    && (forall i :: i in a.users ==>
          a.users[i].id == i && a.users[i].username in a.userByName && a.userByName[a.users[i].username] == i)
  }

  /** One registration attempt. */
  datatype Attempt = Attempt(username: string, hash: Option<string>, id: string, now: int)

  function Apply(a: Accounts, r: Attempt): (Accounts, AuthResult) {
    Register(a, r.username, r.hash, r.id, r.now)
  }

  /** The accounts before, between and after a series of attempts with fresh ids, starting empty. */
  ghost predicate Run(states: seq<Accounts>, rs: seq<Attempt>) {
    && |states| == |rs| + 1
    && states[0] == Accounts(map[], map[])
    && forall i :: 0 <= i < |rs| ==> rs[i].id !in states[i].users && states[i + 1] == Apply(states[i], rs[i]).0
  }

  lemma {:induction false} IndexStaysBijective(states: seq<Accounts>, rs: seq<Attempt>, i: nat)
    requires Run(states, rs) && i < |states|
    ensures Bijective(states[i])
  {
    if i > 0 {
      IndexStaysBijective(states, rs, i - 1);
      assert states[i - 1 + 1] == Apply(states[i - 1], rs[i - 1]).0;
    }
  }

  lemma {:induction false} EntryPersists(states: seq<Accounts>, rs: seq<Attempt>, i: nat, j: nat, name: string)
    requires Run(states, rs) && i <= j < |states| && name in states[i].userByName
    ensures name in states[j].userByName && states[j].userByName[name] == states[i].userByName[name]
    ensures UserOrZero(states[j], states[j].userByName[name]) == UserOrZero(states[i], states[i].userByName[name])
    decreases j
  {
    if i < j {
      EntryPersists(states, rs, i, j - 1, name);
      IndexStaysBijective(states, rs, j - 1);
      assert states[j - 1 + 1] == Apply(states[j - 1], rs[j - 1]).0;
    }
  }

  /** Some user of the table bears this name. */
  ghost predicate Bears(a: Accounts, username: string) {
    exists id :: id in a.users && a.users[id].username == username
  }

  /** In every reachable state a registration is refused for its name exactly when some user bears
      it, fails when the name is free and hashing failed, and otherwise adds one user, who carries
      what was registered. A refused one changes nothing. */
  lemma RegistrationOutcome(states: seq<Accounts>, rs: seq<Attempt>, i: nat)
    requires Run(states, rs) && i < |rs|
    ensures var (after, r) := Apply(states[i], rs[i]);
      && (r.UsernameTaken? <==> Bears(states[i], rs[i].username))
      && (r.HashFailed? <==> !Bears(states[i], rs[i].username) && rs[i].hash.None?)
      && (r.Granted? <==> !Bears(states[i], rs[i].username) && rs[i].hash.Some?)
      && (r.Granted? ==>
            && after.users == states[i].users[rs[i].id := r.user]
            && r.user.id == rs[i].id && r.user.username == rs[i].username
            && r.user.passwordHash == rs[i].hash.value && r.user.createdAt == rs[i].now)
      && (!r.Granted? ==> after == states[i])
  {
    IndexStaysBijective(states, rs, i);
    var a, name := states[i], rs[i].username;
    if name in a.userByName {
      assert a.userByName[name] in a.users;
    }
  }

  /** Once a registration succeeded, its password logs the same user in at every later moment,
      and its name is never given away again. */
  lemma RegisteredStaysRegistered(verify: (string, string) -> bool, states: seq<Accounts>, rs: seq<Attempt>,
      i: nat, j: nat, password: string)
    requires Run(states, rs) && i < j < |states|
    requires Apply(states[i], rs[i]).1.Granted? && verify(rs[i].hash.value, password)
    ensures Authenticate(verify, states[j], rs[i].username, password) == Apply(states[i], rs[i]).1
    ensures j < |rs| && rs[j].username == rs[i].username ==> Apply(states[j], rs[j]).1 == UsernameTaken
  {
    assert states[i + 1] == Apply(states[i], rs[i]).0;
    EntryPersists(states, rs, i + 1, j, rs[i].username);
  }

  /** In every reachable state the two refusals of a login tell an unknown name from a wrong
      password. */
  lemma LoginRefusals(verify: (string, string) -> bool, states: seq<Accounts>, rs: seq<Attempt>,
      i: nat, username: string, password: string)
    requires Run(states, rs) && i < |states|
    ensures var r := Authenticate(verify, states[i], username, password);
      && (r.UserNotFound? <==> !Bears(states[i], username))
      && (r.InvalidPassword? <==> exists id :: id in states[i].users && states[i].users[id].username == username
                                               && !verify(states[i].users[id].passwordHash, password))
  {
    IndexStaysBijective(states, rs, i);
    if username in states[i].userByName {
      assert states[i].userByName[username] in states[i].users;
    }
  }

  /** No user is ever granted to a wrong password, and a granted user bears the name asked for. */
  lemma LoginIsForTheName(verify: (string, string) -> bool, states: seq<Accounts>, rs: seq<Attempt>,
      i: nat, username: string, password: string)
    requires Run(states, rs) && i < |states|
    ensures var r := Authenticate(verify, states[i], username, password);
      r.Granted? <==> exists id :: id in states[i].users && states[i].users[id].username == username
                                   && verify(states[i].users[id].passwordHash, password)
    ensures var r := Authenticate(verify, states[i], username, password);
      r.Granted? ==> r.user.username == username && verify(r.user.passwordHash, password)
  {
    IndexStaysBijective(states, rs, i);
  }
}
