/** Registration and login of the older server revision: no format rules,
    and one answer for every failed login. Missing request fields are the
    empty string; hashing is a parameter as in the newer revision. */
module ServerAuth {
  import opened Outcomes
  import opened Accounts
  import BackendAuth

  /** POST /register: refused when a field is missing or the passwords
      differ, or when the name is taken. */
  function Register(users: Users, u: string, p: string, confirm: string, hashed: string)
    : (r: Result<(Users, string)>)
    ensures (|u| == 0 || |p| == 0 || p != confirm) ==> r == Err(InvalidInput)
    ensures |u| > 0 && |p| > 0 && p == confirm && u in users ==> r == Err(UsernameExists)
    ensures r.Ok? <==> |u| > 0 && |p| > 0 && p == confirm && u !in users
    ensures r.Ok? ==>
      && r.value.1 == u
      && r.value.0.Keys == users.Keys + {u}
      && r.value.0[u] == NewAccount(hashed)
      && forall n :: n in users ==> r.value.0[n] == users[n]
  {
    if |u| == 0 || |p| == 0 || p != confirm then Err(InvalidInput)
    else if u in users then Err(UsernameExists)
    else Ok((users[u := NewAccount(hashed)], u))
  }

  /** POST /login. */
  function Login(users: Users, u: string, p: string, matches: (string, string) -> bool)
    : (r: Result<string>)
    ensures r.Ok? <==> u in users && matches(p, users[u].secret)
    ensures r.Ok? ==> r.value == u
    ensures r.Err? ==> r.error == InvalidCredentials
  {
    if u !in users then Err(InvalidCredentials)
    else if !matches(p, users[u].secret) then Err(InvalidCredentials)
    else Ok(u)
  }

  /** A caller cannot tell an unknown name from a wrong password: both
      answers are the same failure with the same status. */
  lemma LoginHidesWhichCheckFailed(users: Users, u: string, v: string, p: string, q: string,
                                   matches: (string, string) -> bool)
    requires u !in users
    requires v in users && !matches(q, users[v].secret)
    ensures Login(users, u, p, matches) == Login(users, v, q, matches)
    ensures HttpStatus(Login(users, u, p, matches).error) == 400
  {
  }

  /** Whatever the newer revision registers, this one registers too, with
      the same resulting store and answer. */
  lemma NewerRulesAreStricter(users: Users, u: string, p: string, confirm: string, hashed: string)
    ensures BackendAuth.Register(users, u, p, confirm, hashed).Ok? ==>
              Register(users, u, p, confirm, hashed) == BackendAuth.Register(users, u, p, confirm, hashed)
  {
  }

  /** A registered user can log in with the password whose hash was stored. */
  lemma RegisterThenLogin(users: Users, u: string, p: string, hashed: string,
                          matches: (string, string) -> bool)
    requires |u| > 0 && |p| > 0 && u !in users
    requires matches(p, hashed)
    ensures Register(users, u, p, p, hashed).Ok?
    ensures Login(Register(users, u, p, p, hashed).value.0, u, p, matches) == Ok(u)
  {
  }
}
