/** Signup validation and the register and login routes as functions of the
    store. The email syntax check, lower-casing, password hashing and
    verification are supplied functions; the new user id and session id are
    supplied values. */
module Auth {
  import opened Base
  import opened Store

  const UsernameMin: nat := 3
  const PasswordMin: nat := 6

  const UsernameTooShort := "Username must be at least 3 characters"
  const InvalidEmail := "Invalid email address"
  const PasswordTooShort := "Password must be at least 6 characters"
  const PasswordsDiffer := "The passwords did not match"
  const InvalidCredentials := "Invalid email or password"

  /** String length as JavaScript counts it: characters outside the Basic
      Multilingual Plane take two UTF-16 code units. */
  function Utf16Length(s: string): (n: nat)
    ensures |s| <= n <= 2 * |s|
    ensures (forall i :: 0 <= i < |s| ==> s[i] as int <= 0xFFFF) ==> n == |s|
  {
    if |s| == 0 then 0
    else (if s[0] as int > 0xFFFF then 2 else 1) + Utf16Length(s[1..])
  }

  /** The register body. */
  datatype SignupInput = SignupInput(username: string, email: string, password: string, confirmPassword: string)

  /** What validation passes on: the email lower-cased. */
  datatype SignupData = SignupData(username: string, email: string, password: string)

  /** The issues `signupParams` reports, in its order: the fields in
      declaration order, then the refinement, which runs even when a field
      has already failed. */
  function SignupIssues(input: SignupInput, isEmail: string -> bool): (issues: seq<Issue>)
    ensures |issues| <= 4
    ensures Issue("username", UsernameTooShort) in issues <==> Utf16Length(input.username) < UsernameMin
    ensures Issue("email", InvalidEmail) in issues <==> !isEmail(input.email)
    ensures Issue("password", PasswordTooShort) in issues <==> Utf16Length(input.password) < PasswordMin
    ensures Issue("confirmPassword", PasswordsDiffer) in issues <==> input.password != input.confirmPassword
    ensures forall i :: 0 <= i < |issues| ==>
      issues[i] in [Issue("username", UsernameTooShort), Issue("email", InvalidEmail),
                    Issue("password", PasswordTooShort), Issue("confirmPassword", PasswordsDiffer)]
  {
    (if Utf16Length(input.username) < UsernameMin then [Issue("username", UsernameTooShort)] else []) +
    (if !isEmail(input.email) then [Issue("email", InvalidEmail)] else []) +
    (if Utf16Length(input.password) < PasswordMin then [Issue("password", PasswordTooShort)] else []) +
    (if input.password != input.confirmPassword then [Issue("confirmPassword", PasswordsDiffer)] else [])
  }

  /** `signupParams.safeParse`. */
  function ValidateSignup(input: SignupInput, isEmail: string -> bool, lower: string -> string)
    : (r: Result<SignupData, seq<Issue>>)
    ensures r.Ok? <==>
      Utf16Length(input.username) >= UsernameMin && isEmail(input.email) &&
      Utf16Length(input.password) >= PasswordMin && input.password == input.confirmPassword
    ensures r.Ok? ==> r.value == SignupData(input.username, lower(input.email), input.password)
    ensures r.Err? ==> r.error == SignupIssues(input, isEmail) && |r.error| > 0
  {
    var issues := SignupIssues(input, isEmail);
    if |issues| > 0 then Err(issues)
    else
      assert Issue("username", UsernameTooShort) !in issues;
      Ok(SignupData(input.username, lower(input.email), input.password))
  }

  /** A user row already holds this id, username or email: the insert
      violates a key or unique constraint and throws. */
  predicate Clashes(users: seq<User>, id: UserId, d: SignupData) {
    exists u :: u in users && (u.id == id || u.username == d.username || u.email == d.email)
  }

  // ---------------------------------------------------------------------
  // POST /register

  function Register(s: Tables, input: SignupInput, isEmail: string -> bool, lower: string -> string,
                    hash: string -> string, newId: UserId, sessionId: string): (r: Outcome<string>)
    ensures r.response.status != 200 ==> r.state == s
    ensures ValidateSignup(input, isEmail, lower).Err? ==>
              r.response == Response(400, Invalid(SignupIssues(input, isEmail)))
    ensures r.response.status == 200 <==>
      ValidateSignup(input, isEmail, lower).Ok? && !Clashes(s.users, newId, ValidateSignup(input, isEmail, lower).value)
    ensures r.response.status == 200 ==>
      && r.response.body == Data(sessionId)
      && r.state == s.(users := s.users + [User(newId, input.username, lower(input.email), Some(hash(input.password)))],
                       sessions := s.sessions + [Session(sessionId, newId)])
  {
    match ValidateSignup(input, isEmail, lower)
    case Err(issues) => Fail(s, 400, Invalid(issues))
    case Ok(d) =>
      if Clashes(s.users, newId, d) then Fail(s, 400, Thrown)
      else
        Outcome(Response(200, Data(sessionId)),
                s.(users := s.users + [User(newId, d.username, d.email, Some(hash(d.password)))],
                   sessions := s.sessions + [Session(sessionId, newId)]))
  }

  // ---------------------------------------------------------------------
  // POST /login

  /** `s.users[k]` is the row the email lookup returns, its hash is present
      and not empty, and the password verifies against it. */
  ghost predicate CredentialsMatch(s: Tables, email: string, password: string,
                                   verify: (string, string) -> bool, k: int) {
    FirstMatch(s.users, WithEmail(email), k) &&
    s.users[k].hashedPassword.Some? && s.users[k].hashedPassword.value != "" &&
    verify(password, s.users[k].hashedPassword.value)
  }

  function Login(s: Tables, email: string, password: string, verify: (string, string) -> bool,
                 sessionId: string): (r: Outcome<string>)
    // Every way of failing looks the same to the caller.
    ensures r.response.status != 200 ==> r == Fail(s, 400, Error(InvalidCredentials))
    ensures r.response.status == 200 <==>
      email != "" && password != "" && exists k :: CredentialsMatch(s, email, password, verify, k)
    ensures r.response.status == 200 ==>
      && r.response.body == Data(sessionId)
      && exists k :: CredentialsMatch(s, email, password, verify, k) &&
                     r.state == s.(sessions := s.sessions + [Session(sessionId, s.users[k].id)])
  {
    if email == "" || password == "" then Fail(s, 400, Error(InvalidCredentials))
    else
      var found := Filter(s.users, WithEmail(email));
      FindFirstIsFirstMatch(s.users, WithEmail(email));
      FilterHeadIsFindFirst(s.users, WithEmail(email));
      if |found| == 0 || found[0].hashedPassword.None? || found[0].hashedPassword.value == "" ||
         !verify(password, found[0].hashedPassword.value) then
        Fail(s, 400, Error(InvalidCredentials))
      else
        assert CredentialsMatch(s, email, password, verify, FindFirst(s.users, WithEmail(email)).value);
        Outcome(Response(200, Data(sessionId)), s.(sessions := s.sessions + [Session(sessionId, found[0].id)]))
  }

  /** Who has just registered can log in with the stored, lower-cased email
      and the password, and the session is for the new user. */
  lemma RegisterThenLogin(s: Tables, input: SignupInput, isEmail: string -> bool, lower: string -> string,
                          hash: string -> string, verify: (string, string) -> bool,
                          newId: UserId, sid1: string, sid2: string)
    requires Register(s, input, isEmail, lower, hash, newId, sid1).response.status == 200
    requires hash(input.password) != "" && verify(input.password, hash(input.password))
    requires lower(input.email) != ""
    ensures var s2 := Register(s, input, isEmail, lower, hash, newId, sid1).state;
            var r := Login(s2, lower(input.email), input.password, verify, sid2);
            r.response == Response(200, Data(sid2)) &&
            r.state == s2.(sessions := s2.sessions + [Session(sid2, newId)])
  {
    var s2 := Register(s, input, isEmail, lower, hash, newId, sid1).state;
    var e := lower(input.email);
    var n := |s.users|;
    var d := ValidateSignup(input, isEmail, lower).value;
    assert d.email == e;
    assert FirstMatch(s2.users, WithEmail(e), n) by {
      forall j | 0 <= j < n ensures !WithEmail(e)(s2.users[j]) {
        assert s2.users[j] == s.users[j];
        assert s.users[j] in s.users;
      }
    }
    assert Utf16Length(input.password) >= PasswordMin;
    assert input.password != "";
    assert CredentialsMatch(s2, e, input.password, verify, n);
    FindFirstIsFirstMatch(s2.users, WithEmail(e));
  }

  /** Login compares the email exactly, but registration stored it
      lower-cased: logging in with the email as typed fails whenever
      lower-casing changed it and no other account has that spelling. */
  lemma LoginWithTypedEmailFails(s: Tables, input: SignupInput, isEmail: string -> bool, lower: string -> string,
                                 hash: string -> string, verify: (string, string) -> bool,
                                 newId: UserId, sid1: string, sid2: string)
    requires Register(s, input, isEmail, lower, hash, newId, sid1).response.status == 200
    requires lower(input.email) != input.email
    requires forall j :: 0 <= j < |s.users| ==> s.users[j].email != input.email
    ensures var s2 := Register(s, input, isEmail, lower, hash, newId, sid1).state;
            Login(s2, input.email, input.password, verify, sid2).response == Response(400, Error(InvalidCredentials))
  {
    var s2 := Register(s, input, isEmail, lower, hash, newId, sid1).state;
    forall j | 0 <= j < |s2.users| ensures !WithEmail(input.email)(s2.users[j]) {
      if j < |s.users| {
        assert s2.users[j] == s.users[j];
      }
    }
  }
}
