/** Registration, login and logout of `auth.py`. The session is an explicit
    value, the `user_id` it carries or `None`. Password hashing is werkzeug's
    and is not modelled: `hash(salt, password)` stands for
    `generate_password_hash(password)`, whose random salt is a parameter, and
    `check(stored, password)` for `check_password_hash`. */
module Auth {
  import opened Wrappers
  import opened Store

  /** The `user_id` of the session, if someone is logged in. */
  type Session = Option<UserId>

  // ---------------------------------------------------------------------------
  // register

  /** A GET of the form, or a POST of its fields. */
  datatype RegisterRequest = RegisterPage | RegisterForm(name: string, email: string, password: string)

  datatype RegisterOutcome = ShowRegisterForm | EmailTaken | Registered

  datatype RegisterResult = RegisterResult(db: Db, outcome: RegisterOutcome)

  /** `register`: a POST whose email is already stored is refused and changes
      nothing; otherwise one user is added with the given name and email and
      the hash of the password, never the password itself. */
  function Register(db: Db, req: RegisterRequest, hash: (string, string) -> string, salt: string): (r: RegisterResult)
    ensures req.RegisterPage? ==> r == RegisterResult(db, ShowRegisterForm)
    ensures req.RegisterForm? ==>
              (r.outcome == EmailTaken <==> exists u :: u in db.users && u.email == req.email)
    ensures req.RegisterForm? ==>
              (r.outcome == Registered <==> !exists u :: u in db.users && u.email == req.email)
    ensures r.outcome != Registered ==> r.db == db
    ensures r.outcome == Registered ==>
              && req.RegisterForm?
              && r.db.favorites == db.favorites
              && |r.db.users| == |db.users| + 1
              && r.db.users[..|db.users|] == db.users
              && r.db.users[|db.users|].name == req.name
              && r.db.users[|db.users|].email == req.email
              && r.db.users[|db.users|].password == hash(salt, req.password)
  {
    match req
    case RegisterPage => RegisterResult(db, ShowRegisterForm)
    case RegisterForm(name, email, password) =>
      if FindUserByEmail(db.users, email).Some? then
        RegisterResult(db, EmailTaken)
      else
        assert forall u :: u in db.users ==> u.email != email by {
          forall u | u in db.users ensures u.email != email {
            var i :| 0 <= i < |db.users| && db.users[i] == u;
          }
        }
        RegisterResult(CreateUser(db, name, email, hash(salt, password)), Registered)
  }

  /** Registration keeps emails unique. */
  lemma RegisterKeepsEmailsUnique(db: Db, req: RegisterRequest, hash: (string, string) -> string, salt: string)
    requires EmailsUnique(db.users)
    ensures EmailsUnique(Register(db, req, hash, salt).db.users)
  {
    var r := Register(db, req, hash, salt);
    if r.outcome == Registered {
      var n := |db.users|;
      var users := r.db.users;
      forall i, j | 0 <= i < j < |users|
        ensures users[i].email != users[j].email
      {
        assert users[i] == db.users[i];
        if j < n {
          assert users[j] == db.users[j];
        } else {
          assert db.users[i] in db.users;
        }
      }
    }
  }

  // ---------------------------------------------------------------------------
  // login and logout

  /** A GET of the form, or a POST of its fields. */
  datatype LoginRequest = LoginPage | LoginForm(email: string, password: string)

  datatype LoginOutcome = ShowLoginForm | LoggedIn | InvalidCredentials

  datatype LoginResult = LoginResult(session: Session, outcome: LoginOutcome)

  /** `login`: the session takes the id of the user the email lookup finds
      exactly when the password checks against that user's stored hash;
      otherwise the session is left as it was. */
  function Login(db: Db, session: Session, req: LoginRequest, check: (string, string) -> bool): (r: LoginResult)
    ensures req.LoginPage? ==> r == LoginResult(session, ShowLoginForm)
    ensures req.LoginForm? ==>
              (r.outcome == LoggedIn <==>
                 exists i :: IsFirstWithEmail(db.users, req.email, i) && check(db.users[i].password, req.password))
    ensures r.outcome == LoggedIn ==>
              req.LoginForm? && exists i :: IsFirstWithEmail(db.users, req.email, i) && r.session == Some(db.users[i].id)
    ensures r.outcome != LoggedIn ==> r.session == session
  {
    match req
    case LoginPage => LoginResult(session, ShowLoginForm)
    case LoginForm(email, password) =>
      match FindUserByEmail(db.users, email)
      case Some(u) =>
        if check(u.password, password) then LoginResult(Some(u.id), LoggedIn)
        else
          assert forall i :: IsFirstWithEmail(db.users, email, i) ==> db.users[i] == u by {
            forall i | IsFirstWithEmail(db.users, email, i) ensures db.users[i] == u {
              var k :| IsFirstWithEmail(db.users, email, k) && db.users[k] == u;
              assert !(i < k) && !(k < i);
            }
          }
          LoginResult(session, InvalidCredentials)
      case None => LoginResult(session, InvalidCredentials)
  }

  /** `logout`: the session no longer carries a `user_id`. */
  function Logout(session: Session): (r: Session)
    ensures r.None?
  {
    None
  }

  /** Logging out twice is logging out once, and a logged-out session stays
      as it is. */
  lemma LogoutIdempotent(session: Session)
    ensures Logout(Logout(session)) == Logout(session)
    ensures session.None? ==> Logout(session) == session
  {
  }

  // ---------------------------------------------------------------------------
  // Scenarios across register and login

  /** A user who registers with a new email can then log in with the same
      password, provided the hash checks against its own password, and the
      session then carries the new user's id. */
  lemma RegisterThenLogin(db: Db, name: string, email: string, password: string,
                          hash: (string, string) -> string, check: (string, string) -> bool,
                          salt: string, session: Session)
    requires FindUserByEmail(db.users, email).None?
    requires check(hash(salt, password), password)
    ensures var r := Register(db, RegisterForm(name, email, password), hash, salt);
            && r.outcome == Registered
            && Login(r.db, session, LoginForm(email, password), check)
               == LoginResult(Some(r.db.users[|db.users|].id), LoggedIn)
  {
    var r := Register(db, RegisterForm(name, email, password), hash, salt);
    CreateUserLookups(db, name, email, hash(salt, password));
    assert r.db == CreateUser(db, name, email, hash(salt, password));
  }

  /** Registering a second account with an email already taken is refused,
      and the email still finds the first account. */
  lemma SecondRegistrationRefused(db: Db, email: string, name1: string, password1: string,
                                  name2: string, password2: string,
                                  hash: (string, string) -> string, salt1: string, salt2: string)
    requires FindUserByEmail(db.users, email).None?
    ensures var first := Register(db, RegisterForm(name1, email, password1), hash, salt1);
            var second := Register(first.db, RegisterForm(name2, email, password2), hash, salt2);
            && first.outcome == Registered
            && second.outcome == EmailTaken
            && second.db == first.db
            && FindUserByEmail(second.db.users, email).Some?
            && FindUserByEmail(second.db.users, email).value.name == name1
  {
    var first := Register(db, RegisterForm(name1, email, password1), hash, salt1);
    CreateUserLookups(db, name1, email, hash(salt1, password1));
    assert first.db == CreateUser(db, name1, email, hash(salt1, password1));
    var u := first.db.users[|db.users|];
    assert u in first.db.users;
  }
}
