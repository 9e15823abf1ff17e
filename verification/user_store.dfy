/** The in-memory user registry (`UserStore`), one sequential caller at a
    time: a map from user name to password. The creation time each stored
    user carries is not part of the model. */
module UserStore {
  import opened Wrappers

  type Store = map<string, string>

  /** `register(username, password)`: refuses a null or empty name or
      password, then adds the user only when the name is not taken. */
  function Register(s: Store, username: Option<string>, password: Option<string>): (r: (bool, Store))
    ensures r.0 <==> username.Some? && username.value != "" && password.Some? && password.value != ""
                     && username.value !in s
    ensures !r.0 ==> r.1 == s
    ensures r.0 ==> r.1.Keys == s.Keys + {username.value} && r.1[username.value] == password.value
    ensures r.0 ==> forall v :: v in s ==> r.1[v] == s[v]
  {
    if username.None? || username.value == "" || password.None? || password.value == "" then (false, s)
    else if username.value in s then (false, s)
    else (true, s[username.value := password.value])
  }

  /** `login(username, password)`: the user exists and the password is equal. */
  function Login(s: Store, username: Option<string>, password: Option<string>): (b: bool)
    ensures b ==> username.Some? && username.value in s
  {
    username.Some? && password.Some? && username.value in s && s[username.value] == password.value
  }

  /** `exists(username)`. */
  function Exists(s: Store, username: string): bool {
    username in s
  }

  /** `getUserCount()`. */
  function UserCount(s: Store): nat {
    |s.Keys|
  }

  /** `clear()`: no user is left. */
  function Clear(s: Store): (r: Store)
    ensures UserCount(r) == 0
    ensures forall u :: !Exists(r, u)
  {
    map[]
  }

  /** A successful registration adds one user and makes its login work;
      every other user keeps its password. */
  lemma RegisterThenLogin(s: Store, u: string, p: string)
    requires Register(s, Some(u), Some(p)).0
    ensures var s' := Register(s, Some(u), Some(p)).1;
      && Login(s', Some(u), Some(p)) && Exists(s', u)
      && UserCount(s') == UserCount(s) + 1
      && forall v :: v != u ==> (v in s' <==> v in s) && (v in s ==> s'[v] == s[v])
  {
    var s' := Register(s, Some(u), Some(p)).1;
    assert s'.Keys == s.Keys + {u};
    assert u !in s.Keys;
  }

  /** A failed registration leaves the count, and every password, as it was. */
  lemma RegisterFailsUnchanged(s: Store, username: Option<string>, password: Option<string>)
    requires !Register(s, username, password).0
    ensures UserCount(Register(s, username, password).1) == UserCount(s)
    ensures forall u :: Login(Register(s, username, password).1, Some(u), password) == Login(s, Some(u), password)
  {
  }
}
