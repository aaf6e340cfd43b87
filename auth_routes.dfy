/** The register and login routes as imperative code over the store, each
    proved to produce the response and the store its function in `Auth`
    describes. */
module AuthRoutes {
  import opened Base
  import opened Store
  import A = Auth

  method Register(db: Db, input: A.SignupInput, isEmail: string -> bool, lower: string -> string,
                  hash: string -> string, newId: UserId, sessionId: string)
    returns (resp: Response<string>)
    modifies db
    ensures Outcome(resp, db.State()) == A.Register(old(db.State()), input, isEmail, lower, hash, newId, sessionId)
  {
    var validatedInput := A.ValidateSignup(input, isEmail, lower);
    if validatedInput.Err? {
      return Response(400, Invalid(validatedInput.error));
    }
    var d := validatedInput.value;
    if A.Clashes(db.users, newId, d) {
      return Response(400, Thrown);
    }
    db.InsertUser(User(newId, d.username, d.email, Some(hash(d.password))));
    db.InsertSession(Session(sessionId, newId));
    return Response(200, Data(sessionId));
  }

  method Login(db: Db, email: string, password: string, verify: (string, string) -> bool, sessionId: string)
    returns (resp: Response<string>)
    modifies db
    ensures Outcome(resp, db.State()) == A.Login(old(db.State()), email, password, verify, sessionId)
  {
    if email == "" || password == "" {
      return Response(400, Error(A.InvalidCredentials));
    }
    var user := Filter(db.users, WithEmail(email));
    if |user| == 0 || user[0].hashedPassword.None? || user[0].hashedPassword.value == "" {
      return Response(400, Error(A.InvalidCredentials));
    }
    if !verify(password, user[0].hashedPassword.value) {
      return Response(400, Error(A.InvalidCredentials));
    }
    db.InsertSession(Session(sessionId, user[0].id));
    return Response(200, Data(sessionId));
  }
}
