/** Registration and login of the newer server revision. A missing request
    field is the empty string (both are falsy); the password hash and the
    hash comparison are parameters, since the hashing library is outside
    the model. The session token the routes set on success is left out. */
module BackendAuth {
  import opened Outcomes
  import opened Accounts

  const MinUsername: nat := 3
  const MaxUsername: nat := 20
  const MinPassword: nat := 6

  /** One character of `[a-zA-Z0-9]`. */
  predicate IsAlnum(ch: char) {
    ('a' <= ch <= 'z') || ('A' <= ch <= 'Z') || ('0' <= ch <= '9')
  }

  /** JavaScript's `length`: the number of UTF-16 code units, two for a
      character outside the Basic Multilingual Plane. */
  function Utf16Length(s: string): (n: nat)
    ensures |s| <= n <= 2 * |s|
    ensures (forall i :: 0 <= i < |s| ==> s[i] as int <= 0xFFFF) ==> n == |s|
    decreases |s|
  {
    if |s| == 0 then 0
    else (if s[0] as int > 0xFFFF then 2 else 1) + Utf16Length(s[1..])
  }

  /** The username test: present, 3 to 20 code units, all letters or digits. */
  predicate ValidUsername(u: string) {
    && |u| > 0
    && MinUsername <= Utf16Length(u) <= MaxUsername
    && forall i :: 0 <= i < |u| ==> IsAlnum(u[i])
  }

  /** The password test: present, equal to its confirmation, at least six
      code units. */
  predicate ValidPassword(p: string, confirm: string) {
    |p| > 0 && p == confirm && Utf16Length(p) >= MinPassword
  }

  /** A valid username is plain ASCII, so its length in code units is its
      number of characters. */
  lemma ValidUsernameLength(u: string)
    requires ValidUsername(u)
    ensures MinUsername <= |u| <= MaxUsername
  {
  }

  /** Characters outside the Basic Multilingual Plane count twice: three
      emoji make a six-unit password, long enough to pass. */
  lemma AstralPasswordAccepted()
    ensures Utf16Length("\U{1F600}\U{1F600}\U{1F600}") == 6
    ensures ValidPassword("\U{1F600}\U{1F600}\U{1F600}", "\U{1F600}\U{1F600}\U{1F600}")
  {
  }

  /** POST /register. `hashed` is what the hash of `p` stores. On success
      the answer names the new user. */
  function Register(users: Users, u: string, p: string, confirm: string, hashed: string)
    : (r: Result<(Users, string)>)
    ensures !ValidUsername(u) ==> r == Err(InvalidUsername)
    ensures ValidUsername(u) && !ValidPassword(p, confirm) ==> r == Err(InvalidPassword)
    ensures ValidUsername(u) && ValidPassword(p, confirm) && u in users ==> r == Err(UsernameExists)
    ensures r.Ok? <==> ValidUsername(u) && ValidPassword(p, confirm) && u !in users
    ensures r.Ok? ==>
      && r.value.1 == u
      && r.value.0.Keys == users.Keys + {u}
      && r.value.0[u] == NewAccount(hashed)
      && forall n :: n in users ==> r.value.0[n] == users[n]
  {
    if !ValidUsername(u) then Err(InvalidUsername)
    else if !ValidPassword(p, confirm) then Err(InvalidPassword)
    else if u in users then Err(UsernameExists)
    else Ok((users[u := NewAccount(hashed)], u))
  }

  /** POST /login. `matches(p, secret)` stands for the hash comparison. */
  function Login(users: Users, u: string, p: string, matches: (string, string) -> bool)
    : (r: Result<string>)
    ensures u !in users ==> r == Err(UserNotFound)
    ensures u in users && !matches(p, users[u].secret) ==> r == Err(IncorrectPassword)
    ensures r.Ok? <==> u in users && matches(p, users[u].secret)
    ensures r.Ok? ==> r.value == u
  {
    if u !in users then Err(UserNotFound)
    else if !matches(p, users[u].secret) then Err(IncorrectPassword)
    else Ok(u)
  }

  /** A registered user can log in with the password whose hash was stored,
      whenever the comparison accepts that pair. */
  lemma RegisterThenLogin(users: Users, u: string, p: string, hashed: string,
                          matches: (string, string) -> bool)
    requires ValidUsername(u) && ValidPassword(p, p) && u !in users
    requires matches(p, hashed)
    ensures Register(users, u, p, p, hashed).Ok?
    ensures Login(Register(users, u, p, p, hashed).value.0, u, p, matches) == Ok(u)
  {
  }

  /** Registering a name twice fails the second time and changes nothing. */
  lemma RegisterTwiceRefused(users: Users, u: string, p: string, hashed: string, p': string, hashed': string)
    requires Register(users, u, p, p, hashed).Ok?
    requires ValidPassword(p', p')
    ensures var users' := Register(users, u, p, p, hashed).value.0;
      Register(users', u, p', p', hashed') == Err(UsernameExists)
  {
  }

  /** Registration never disturbs the accounts that were already there, so
      their logins are unaffected. */
  lemma RegisterKeepsLogins(users: Users, u: string, p: string, hashed: string,
                            v: string, q: string, matches: (string, string) -> bool)
    requires Register(users, u, p, p, hashed).Ok?
    requires v in users
    ensures Login(Register(users, u, p, p, hashed).value.0, v, q, matches) == Login(users, v, q, matches)
  {
  }

  /** The failures a login can report are told apart by status: 401 for an
      unknown user, 400 for a wrong password. */
  lemma LoginStatuses(users: Users, u: string, p: string, matches: (string, string) -> bool)
    requires Login(users, u, p, matches).Err?
    ensures HttpStatus(Login(users, u, p, matches).error) == (if u in users then 400 else 401)
  {
  }
}
