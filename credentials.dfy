/**
  The plaintext user registry behind the login form: a map from username
  to record, the name of the user signed in, and the copy of the map kept
  in browser storage under `quant-optik-users`.
 */
module Credentials {
  import opened Wrappers

  /** What registration stores per user: the password, in plain text, and
      an (always empty) preferences object. */
  datatype Record = Record(password: string, preferences: map<string, string>)

  /** How a registration attempt ends. */
  datatype Registration = Created | Taken | TooShort

  /** The order of checks in the register handler: a known name is taken
      whatever the lengths; otherwise both length rules must hold. */
  function Decide(users: map<string, Record>, username: string, password: string): (d: Registration)
    ensures d == Taken <==> username in users
    ensures d == Created <==> username !in users && |username| >= 3 && |password| >= 6
    ensures d == TooShort <==> username !in users && (|username| < 3 || |password| < 6)
  {
    if username in users then Taken
    else if |username| >= 3 && |password| >= 6 then Created
    else TooShort
  }

  /** `users[username]?.password === password`: an unknown name never matches. */
  predicate Accepts(users: map<string, Record>, username: string, password: string) {
    username in users && users[username].password == password
  }

  /** After a successful registration the new user can log in with the
      password just given, every other user logs in exactly as before, and
      the name is taken for any further registration. */
  lemma RegisterThenLogin(users: map<string, Record>, username: string, password: string)
    requires Decide(users, username, password) == Created
    ensures var after := users[username := Record(password, map[])];
            && Accepts(after, username, password)
            && (forall u, p :: u != username ==> (Accepts(after, u, p) <==> Accepts(users, u, p)))
            && (forall p :: Decide(after, username, p) == Taken)
  {
  }

  class Registry {
    var users: map<string, Record>
    var currentUser: Option<string>
    /** What browser storage holds under `quant-optik-users`, if anything. */
    var stored: Option<map<string, Record>>

    /** The signed-in user is a registered one, and the map in memory is
        the one in storage, or empty when storage holds nothing. */
    ghost predicate Valid()
      reads this
    {
      && (currentUser.Some? ==> currentUser.value in users)
      && (stored == Some(users) || (stored.None? && users == map[]))
    }

    /** Page load: `JSON.parse(localStorage.getItem(...)) || {}`, nobody signed in. */
    constructor (saved: Option<map<string, Record>>)
      ensures Valid()
      ensures users == (if saved.Some? then saved.value else map[])
      ensures currentUser == None && stored == saved
    {
      users := if saved.Some? then saved.value else map[];
      currentUser := None;
      stored := saved;
    }

    /** The login button: signs the user in when the password matches, and
        changes nothing otherwise. */
    method Login(username: string, password: string) returns (ok: bool)
      requires Valid()
      modifies this
      ensures Valid()
      ensures ok <==> Accepts(users, username, password)
      ensures users == old(users) && stored == old(stored)
      ensures currentUser == if ok then Some(username) else old(currentUser)
    {
      ok := username in users && users[username].password == password;
      if ok {
        currentUser := Some(username);
      }
    }

    /** The register button: only a `Created` outcome changes anything, and
        then it adds exactly the new entry, saves the map and signs the new
        user in. */
    method Register(username: string, password: string) returns (d: Registration)
      requires Valid()
      modifies this
      ensures Valid()
      ensures d == Decide(old(users), username, password)
      ensures d == Created ==>
                && users == old(users)[username := Record(password, map[])]
                && currentUser == Some(username)
                && stored == Some(users)
      ensures d != Created ==>
                users == old(users) && currentUser == old(currentUser) && stored == old(stored)
    {
      if username in users {
        d := Taken;
      } else if |username| >= 3 && |password| >= 6 {
        users := users[username := Record(password, map[])];
        stored := Some(users);
        currentUser := Some(username);
        d := Created;
      } else {
        d := TooShort;
      }
    }

    /** The `logout` command: nobody is signed in afterwards. */
    method Logout()
      requires Valid()
      modifies this
      ensures Valid()
      ensures currentUser == None
      ensures users == old(users) && stored == old(stored)
    {
      currentUser := None;
    }
  }
}
