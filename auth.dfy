/**
 * auth_module.py: the login decision (name, password and organization must
 * all match a stored user) and the sign-up decision (usernames are unique
 * across every organization); also the logout button of main.py.
 */
module Auth {
  import opened Wrappers
  import opened Store

  datatype LoginOutcome = LoginMissingField | InvalidCredentials | LoggedIn

  datatype SignUpOutcome = SignUpMissingField | PasswordMismatch | UsernameTaken | SignedUp

  /** `filter_by(username=..., organization=...).first()`. */
  function FindUser(users: seq<User>, username: string, organization: string): (r: Option<nat>)
    ensures r.Some? ==> r.value < |users| && users[r.value].username == username &&
                        users[r.value].organization == organization
    ensures r.None? <==> forall u :: u in users ==> !(u.username == username && u.organization == organization)
  {
    FirstIndex(users, (u: User) => u.username == username && u.organization == organization)
  }

  /** `filter_by(username=...).first()`. */
  function FindUsername(users: seq<User>, username: string): (r: Option<nat>)
    ensures r.Some? ==> r.value < |users| && users[r.value].username == username
    ensures r.None? <==> forall u :: u in users ==> u.username != username
  {
    FirstIndex(users, (u: User) => u.username == username)
  }

  /** What pressing "Login" decides. */
  function LoginDecision(users: seq<User>, username: string, password: string, organization: string): LoginOutcome {
    if username == "" || password == "" || organization == "" then LoginMissingField
    else match FindUser(users, username, organization)
      case Some(i) => if users[i].password == password then LoggedIn else InvalidCredentials
      case None => InvalidCredentials
  }

  /** What pressing "Sign Up" decides, checked in the order of the source. */
  function SignUpDecision(users: seq<User>, username: string, password: string, confirmPassword: string,
                          organization: string): SignUpOutcome {
    if username == "" || password == "" || confirmPassword == "" || organization == "" then SignUpMissingField
    else if password != confirmPassword then PasswordMismatch
    else if FindUsername(users, username).Some? then UsernameTaken
    else SignedUp
  }

  /** With unique usernames, two positions holding the same username are the same position. */
  lemma SameUsernameSameIndex(users: seq<User>, i: nat, j: nat)
    requires UniqueUsernames(users) && i < |users| && j < |users|
    ensures users[i].username == users[j].username ==> i == j
  {
  }

  /**
   * With unique usernames, a login succeeds exactly when every field is
   * filled and the table holds a user with that name, password and
   * organization.
   */
  lemma LoginIff(users: seq<User>, username: string, password: string, organization: string)
    requires UniqueUsernames(users)
    ensures LoginDecision(users, username, password, organization) == LoggedIn <==>
      username != "" && password != "" && organization != "" &&
      User(username, password, organization) in users
  {
    if username != "" && password != "" && organization != "" && User(username, password, organization) in users {
      var k :| 0 <= k < |users| && users[k] == User(username, password, organization);
      var f := FindUser(users, username, organization);
      SameUsernameSameIndex(users, f.value, k);
    }
  }

  /** A user of the right name and password but another organization cannot log in. */
  lemma LoginNeedsOrganization(users: seq<User>, username: string, password: string, organization: string)
    requires UniqueUsernames(users)
    requires exists u :: u in users && u.username == username && u.organization != organization
    ensures LoginDecision(users, username, password, organization) != LoggedIn
  {
    var u :| u in users && u.username == username && u.organization != organization;
    var k :| 0 <= k < |users| && users[k] == u;
    forall j | 0 <= j < |users| ensures !(users[j].username == username && users[j].organization == organization) {
      SameUsernameSameIndex(users, j, k);
    }
  }

  /** Every empty field is reported before any lookup, on both forms; the sign-up form also needs the confirmation. */
  lemma EmptyFieldsRejected(users: seq<User>, username: string, password: string, confirmPassword: string,
                            organization: string)
    ensures username == "" || password == "" || organization == "" ==>
      LoginDecision(users, username, password, organization) == LoginMissingField
    ensures username == "" || password == "" || confirmPassword == "" || organization == "" ==>
      SignUpDecision(users, username, password, confirmPassword, organization) == SignUpMissingField
  {
  }

  /** With every field filled, a confirmation that differs from the password is refused, whatever the table holds. */
  lemma PasswordMismatchRejected(users: seq<User>, username: string, password: string, confirmPassword: string,
                                 organization: string)
    requires username != "" && password != "" && confirmPassword != "" && organization != ""
    ensures SignUpDecision(users, username, password, confirmPassword, organization) == PasswordMismatch <==>
      password != confirmPassword
  {
  }

  /** A username already taken in any organization is refused; a free one is accepted. */
  lemma SignUpIff(users: seq<User>, username: string, password: string, organization: string)
    requires username != "" && password != "" && organization != ""
    ensures SignUpDecision(users, username, password, password, organization) == UsernameTaken <==>
      exists u :: u in users && u.username == username
    ensures SignUpDecision(users, username, password, password, organization) == SignedUp <==>
      forall u :: u in users ==> u.username != username
  {
    var f := FindUsername(users, username);
    if f.Some? {
      assert users[f.value] in users;
    } else {
      forall u | u in users ensures u.username != username {
        var k :| 0 <= k < |users| && users[k] == u;
      }
    }
  }

  /** An accepted sign-up keeps usernames unique, and the new account can log in. */
  lemma SignUpThenLogin(users: seq<User>, username: string, password: string, organization: string)
    requires UniqueUsernames(users)
    requires SignUpDecision(users, username, password, password, organization) == SignedUp
    ensures UniqueUsernames(users + [User(username, password, organization)])
    ensures LoginDecision(users + [User(username, password, organization)], username, password, organization) == LoggedIn
  {
    var r := users + [User(username, password, organization)];
    SignUpIff(users, username, password, organization);
    forall i | 0 <= i < |users| ensures r[i].username != username {
      assert users[i] in users;
    }
    LoginIff(r, username, password, organization);
  }

  /** "Login": on success record the user and organization in the session. */
  method Login(db: Database, session: SessionState, username: string, password: string, organization: string)
    returns (outcome: LoginOutcome)
    modifies session
    ensures outcome == LoginDecision(db.users, username, password, organization)
    ensures outcome == LoggedIn ==>
      session.isLoggedIn && session.username == Some(username) && session.organization == Some(organization)
    ensures outcome == LoggedIn ==> session.Access() == Granted(organization)
    ensures outcome != LoggedIn ==>
      session.isLoggedIn == old(session.isLoggedIn) && session.username == old(session.username) &&
      session.organization == old(session.organization)
    ensures session.editEmployeeId == old(session.editEmployeeId)
    ensures session.pendingDeletes == old(session.pendingDeletes)
  {
    if username == "" || password == "" || organization == "" {
      return LoginMissingField;
    }
    var found := FindUser(db.users, username, organization);
    if found.Some? && db.users[found.value].password == password {
      session.isLoggedIn := true;
      session.username := Some(username);
      session.organization := Some(organization);
      outcome := LoggedIn;
    } else {
      outcome := InvalidCredentials;
    }
  }

  /** "Sign Up": on acceptance add the user and commit. */
  method SignUp(db: Database, username: string, password: string, confirmPassword: string, organization: string)
    returns (outcome: SignUpOutcome)
    requires db.Valid()
    modifies db
    ensures db.Valid()
    ensures outcome == SignUpDecision(old(db.users), username, password, confirmPassword, organization)
    ensures outcome == SignedUp ==> db.users == old(db.users) + [User(username, password, organization)]
    ensures outcome != SignedUp ==> db.users == old(db.users)
    ensures (username == "" || password == "" || confirmPassword == "" || organization == "") ==>
      outcome == SignUpMissingField
    ensures (username != "" && password != "" && confirmPassword != "" && organization != "" &&
             password != confirmPassword) ==> outcome == PasswordMismatch
    ensures db.employees == old(db.employees) && db.attendances == old(db.attendances)
  {
    outcome := SignUpDecision(db.users, username, password, confirmPassword, organization);
    if outcome == SignedUp {
      SignUpThenLogin(db.users, username, password, organization);
      db.users := db.users + [User(username, password, organization)];
    }
  }

  /** The sidebar's "Logout": back to the state before any login. */
  method Logout(session: SessionState)
    modifies session
    ensures !session.isLoggedIn && session.username == None && session.organization == None
    ensures session.Access() == NotLoggedIn
    ensures session.editEmployeeId == old(session.editEmployeeId)
    ensures session.pendingDeletes == old(session.pendingDeletes)
  {
    session.isLoggedIn := false;
    session.username := None;
    session.organization := None;
  }
}
