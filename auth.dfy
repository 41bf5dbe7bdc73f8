/** The `/api/auth` routes over the module-level user list: login, session
    validation and the user listing are lookups that answer a profile (a user
    without its password); register appends a user. */
module Auth {
  import opened Js
  import opened Http
  import Seqs

  /** A login account. `employeeId` is absent (`Undefined`) for the HR account,
      a number for the seeded employees and whatever was sent (or `null`) for registered ones. */
  datatype User = User(id: int, username: string, password: string, role: string, name: string, employeeId: Val)

  /** What the routes answer about a user: every field but the password. */
  datatype Profile = Profile(id: int, username: string, role: string, name: string, employeeId: Val)

  const MissingCredentials: string := "Username and password are required"
  const InvalidCredentials: string := "Invalid credentials"
  const InvalidSession: string := "Invalid session"
  const MissingFields: string := "All fields are required"
  const UsernameTaken: string := "Username already exists"

  /** `const { password: _, ...userInfo } = user`. */
  function ProfileOf(u: User): (p: Profile)
    ensures p.id == u.id && p.username == u.username && p.role == u.role
    ensures p.name == u.name && p.employeeId == u.employeeId
  {
    Profile(u.id, u.username, u.role, u.name, u.employeeId)
  }

  /** The profile reveals nothing about the password: two users have the same
      profile exactly when they differ at most in their passwords. */
  lemma ProfileHidesPassword(u: User, v: User)
    ensures ProfileOf(u) == ProfileOf(v) <==> u == v.(password := u.password)
  {
  }

  /** The four accounts the server starts with. */
  function SeedUsers(): (r: seq<User>)
    ensures |r| == 4 && Valid(r)
  {
    [ User(1, "hr@company.com", "hr123", "hr", "HR Manager", Undefined),
      User(2, "john@company.com", "john123", "employee", "John Doe", Num(1)),
      User(3, "jane@company.com", "jane123", "employee", "Jane Smith", Num(2)),
      User(4, "bob@company.com", "bob123", "employee", "Bob Johnson", Num(3)) ]
  }

  /** Ids are list positions plus one (so they are unique), and usernames are unique. */
  predicate Valid(users: seq<User>) {
    && (forall i :: 0 <= i < |users| ==> users[i].id == i + 1)
    && (forall i, j :: 0 <= i < j < |users| ==> users[i].username != users[j].username)
  }

  predicate Matches(u: User, username: string, password: string) {
    u.username == username && u.password == password
  }

  /** `users.find(u => u.username === username && u.password === password)`, as an index. */
  function CredentialIndex(users: seq<User>, username: string, password: string): (i: int)
    ensures -1 <= i < |users|
    ensures 0 <= i ==> Matches(users[i], username, password)
    ensures i == -1 <==> forall j :: 0 <= j < |users| ==> !Matches(users[j], username, password)
  {
    Seqs.FindIndex(users, u => Matches(u, username, password))
  }

  /** `POST /login`. An empty username or password is 400; otherwise the first
      account with exactly those credentials, or 401. */
  function Login(users: seq<User>, username: string, password: string): (r: Outcome<Profile>)
    ensures r.Ok? || r == BadRequest(MissingCredentials) || r == Unauthorized(InvalidCredentials)
    ensures r.BadRequest? <==> username == "" || password == ""
    ensures r.Ok? <==> (username != "" && password != "" &&
                        exists i :: 0 <= i < |users| && Matches(users[i], username, password))
    ensures r.Ok? ==> exists i :: 0 <= i < |users| && Matches(users[i], username, password) && r.value == ProfileOf(users[i])
  {
    if username == "" || password == "" then BadRequest(MissingCredentials)
    else
      var i := CredentialIndex(users, username, password);
      if i < 0 then Unauthorized(InvalidCredentials) else Ok(ProfileOf(users[i]))
  }

  /** `POST /validate`: the account whose id is `userId` (compared with `===`, no parsing), or 401. */
  function Validate(users: seq<User>, userId: Val): (r: Outcome<Profile>)
    ensures r.Ok? || r == Unauthorized(InvalidSession)
    ensures r.Unauthorized? <==> forall i :: 0 <= i < |users| ==> !HasKey(users[i].id, userId)
    ensures r.Ok? ==> exists i :: 0 <= i < |users| && HasKey(users[i].id, userId) && r.value == ProfileOf(users[i])
  {
    var i := IndexOfKey(users, (u: User) => u.id, userId);
    if i < 0 then Unauthorized(InvalidSession) else Ok(ProfileOf(users[i]))
  }

  /** `GET /users`: every account's profile, in order. */
  function Users(users: seq<User>): (r: seq<Profile>)
    ensures |r| == |users|
    ensures forall i :: 0 <= i < |users| ==> r[i] == ProfileOf(users[i])
  {
    seq(|users|, i requires 0 <= i < |users| => ProfileOf(users[i]))
  }

  /** The body of `POST /register`; "" stands for a missing string field. */
  datatype RegisterBody = RegisterBody(username: string, password: string, role: string, name: string, employeeId: Val)

  predicate UsernameInUse(users: seq<User>, username: string) {
    exists i :: 0 <= i < |users| && users[i].username == username
  }

  /** `POST /register`: 400 on a missing field or a taken username; otherwise
      the user with id `length + 1` and `employeeId || null` is appended. */
  function Registration(users: seq<User>, body: RegisterBody): (r: Reply<seq<User>, Profile>)
    ensures r.outcome.Ok? || r.outcome == BadRequest(MissingFields) || r.outcome == BadRequest(UsernameTaken)
    ensures r.outcome == BadRequest(MissingFields) <==> body.username == "" || body.password == "" || body.role == "" || body.name == ""
    ensures r.outcome.BadRequest? ==> r.state == users
    ensures r.outcome.Ok? <==> (body.username != "" && body.password != "" && body.role != "" && body.name != ""
                                && !UsernameInUse(users, body.username))
    ensures r.outcome.Ok? ==> |r.state| == |users| + 1 && r.state[..|users|] == users
    ensures r.outcome.Ok? ==> var u := r.state[|users|];
      && r.outcome.value == ProfileOf(u)
      && u.id == |users| + 1 && u.username == body.username && u.password == body.password
      && u.role == body.role && u.name == body.name && u.employeeId == Or(body.employeeId, Null)
  {
    if body.username == "" || body.password == "" || body.role == "" || body.name == "" then
      Reply(users, BadRequest(MissingFields))
    else if Seqs.FindIndex(users, (u: User) => u.username == body.username) >= 0 then
      Reply(users, BadRequest(UsernameTaken))
    else
      var u := User(|users| + 1, body.username, body.password, body.role, body.name, Or(body.employeeId, Null));
      Reply(users + [u], Ok(ProfileOf(u)))
  }

  lemma RegisterKeepsValid(users: seq<User>, body: RegisterBody)
    requires Valid(users)
    ensures Valid(Registration(users, body).state)
  {
  }

  /** After a successful registration the same credentials log in, as the new
      account, and its id validates. */
  lemma RegisterThenLogin(users: seq<User>, body: RegisterBody)
    requires Valid(users)
    requires Registration(users, body).outcome.Ok?
    ensures var r := Registration(users, body);
      && Login(r.state, body.username, body.password) == r.outcome
      && Validate(r.state, Num(|users| + 1)) == r.outcome
  {
    var r := Registration(users, body);
    var s := r.state;
    var u := s[|users|];
    assert forall j :: 0 <= j < |users| ==> s[j] == users[j];
    var i := CredentialIndex(s, body.username, body.password);
    assert i == |users|;
    var k := IndexOfKey(s, (v: User) => v.id, Num(|users| + 1));
    assert k == |users|;
  }

  /** The user list as one object whose `register` pushes onto it. */
  class UserDirectory {
    var users: seq<User>

    constructor ()
      ensures users == SeedUsers()
    {
      users := SeedUsers();
    }

    method Register(body: RegisterBody) returns (r: Outcome<Profile>)
      requires Valid(users)
      modifies this`users
      ensures Valid(users)
      ensures r == Registration(old(users), body).outcome
      ensures users == Registration(old(users), body).state
    {
      RegisterKeepsValid(users, body);
      if body.username == "" || body.password == "" || body.role == "" || body.name == "" {
        r := BadRequest(MissingFields);
        return;
      }
      if Seqs.FindIndex(users, (u: User) => u.username == body.username) >= 0 {
        r := BadRequest(UsernameTaken);
        return;
      }
      var u := User(|users| + 1, body.username, body.password, body.role, body.name, Or(body.employeeId, Null));
      users := users + [u];
      r := Ok(ProfileOf(u));
    }
  }
}
