/** The account endpoints: registration, login and logout through the
    session, profile update, and the admin delete. */
module UserController {
  import opened Tables
  import opened Database

  /** The registration body. Its `password` field (PasswordHash in the
      service) carries the raw password. */
  datatype RegistrationDto = RegistrationDto(username: string, fullname: string, emailAddress: string,
                                             password: string)

  predicate EmailInUse(users: seq<User>, email: string)
  {
    exists u :: u in users && u.emailAddress == email
  }

  predicate UsernameInUse(users: seq<User>, name: string)
  {
    exists u :: u in users && u.username == name
  }

  /** No two users share an email address, and no two share a username. */
  ghost predicate UniqueCredentials(users: seq<User>)
  {
    && (forall i, j :: 0 <= i < j < |users| ==> users[i].emailAddress != users[j].emailAddress)
    && (forall i, j :: 0 <= i < j < |users| ==> users[i].username != users[j].username)
  }

  /** The row a successful registration adds: the password hashed, the
      role left at its default. */
  function NewUser(id: int, dto: RegistrationDto, hash: string -> string, now: int): (u: User)
    ensures u.id == id && u.createdAt == now && u.role == DefaultRole
    ensures u.username == dto.username && u.fullname == dto.fullname && u.emailAddress == dto.emailAddress
    ensures VerifyPassword(hash, dto.password, u.passwordHash)
  {
    User(id, dto.username, dto.fullname, dto.emailAddress, hash(dto.password), now, DefaultRole)
  }

  /** A registration that passed both checks keeps emails and usernames unique. */
  lemma RegistrationKeepsCredentialsUnique(users: seq<User>, id: int, dto: RegistrationDto,
                                           hash: string -> string, now: int)
    requires UniqueCredentials(users)
    requires !EmailInUse(users, dto.emailAddress) && !UsernameInUse(users, dto.username)
    ensures UniqueCredentials(users + [NewUser(id, dto, hash, now)])
  {
    var r := users + [NewUser(id, dto, hash, now)];
    forall i | 0 <= i < |users|
      ensures r[i].emailAddress != r[|users|].emailAddress && r[i].username != r[|users|].username
    {
      assert r[i] in users;
    }
  }

  /** POST api/User/register: BadRequest for a missing body, an email already
      in use or a username already taken, adding nothing; otherwise exactly
      one user is added, with the hashed password and the default role. */
  method Register(db: Store, dto: Option<RegistrationDto>, now: int) returns (r: Status)
    requires db.Valid()
    modifies db`users, db`nextUserId
    ensures db.Valid()
    ensures r == Ok || r == BadRequest
    ensures r == BadRequest <==>
              dto.None? || EmailInUse(old(db.users), dto.value.emailAddress) || UsernameInUse(old(db.users), dto.value.username)
    ensures r == BadRequest ==> db.users == old(db.users) && db.nextUserId == old(db.nextUserId)
    ensures r == Ok ==> db.users == old(db.users) + [NewUser(old(db.nextUserId), dto.value, db.hash, now)]
    ensures r == Ok ==> db.nextUserId == old(db.nextUserId) + 1
    ensures UniqueCredentials(old(db.users)) ==> UniqueCredentials(db.users)
  {
    if dto.None? {
      return BadRequest;
    }
    var body := dto.value;
    if EmailInUse(db.users, body.emailAddress) {
      return BadRequest;
    }
    if UsernameInUse(db.users, body.username) {
      return BadRequest;
    }
    var user := NewUser(db.nextUserId, body, db.hash, now);
    AppendFreshKey(db.users, UserKey, db.nextUserId, user);
    if UniqueCredentials(db.users) {
      RegistrationKeepsCredentialsUnique(db.users, db.nextUserId, body, db.hash, now);
    }
    db.users := db.users + [user];
    db.nextUserId := db.nextUserId + 1;
    r := Ok;
  }

  /** The login name is this user's username or email address. */
  predicate NameMatches(u: User, name: string)
  {
    u.username == name || u.emailAddress == name
  }

  /** The position of the first user the login name matches. */
  function LoginIndex(users: seq<User>, name: string): (r: Option<nat>)
    ensures r.Some? ==> r.value < |users| && NameMatches(users[r.value], name)
    ensures r.Some? ==> forall j :: 0 <= j < r.value ==> !NameMatches(users[j], name)
    ensures r.None? <==> forall j :: 0 <= j < |users| ==> !NameMatches(users[j], name)
  {
    if |users| == 0 then None
    else if NameMatches(users[0], name) then Some(0)
    else match LoginIndex(users[1..], name)
      case None => None
      case Some(i) => Some(i + 1)
  }

  /** VerifyPassword: the entered password hashes to the stored hash. */
  predicate VerifyPassword(hash: string -> string, entered: string, storedHash: string)
  {
    hash(entered) == storedHash
  }

  /** The id a login with these credentials puts into the session: the first
      user the name matches, if the password fits that user. */
  function LoginUser(users: seq<User>, hash: string -> string, name: string, password: string): (r: Option<int>)
    ensures r.Some? ==> exists u :: u in users && NameMatches(u, name) && u.passwordHash == hash(password) && u.id == r.value
  {
    match LoginIndex(users, name)
    case None => None
    case Some(k) =>
      assert users[k] in users;
      if VerifyPassword(hash, password, users[k].passwordHash) then Some(users[k].id) else None
  }

  /** When the name matches at most one user, login succeeds exactly when a
      user with that name or email has the password's hash, and logs in
      that user. */
  lemma LoginWithUnambiguousName(users: seq<User>, hash: string -> string, name: string, password: string)
    requires forall i, j :: 0 <= i < j < |users| && NameMatches(users[i], name) ==> !NameMatches(users[j], name)
    ensures LoginUser(users, hash, name, password).Some? <==>
              exists u :: u in users && NameMatches(u, name) && u.passwordHash == hash(password)
    ensures forall u :: u in users && NameMatches(u, name) && u.passwordHash == hash(password) ==>
              LoginUser(users, hash, name, password) == Some(u.id)
  {
    forall u | u in users && NameMatches(u, name)
      ensures LoginIndex(users, name).Some? && users[LoginIndex(users, name).value] == u
    {
      var j :| 0 <= j < |users| && users[j] == u;
      var k := LoginIndex(users, name).value;
      assert !(k < j) && !(j < k);
    }
  }

  /** Round trip: right after a successful registration the new user can log
      in with the username and password just registered, provided no older
      account has that username as its email address. */
  lemma LoginAfterRegister(users: seq<User>, hash: string -> string, id: int, dto: RegistrationDto, now: int)
    requires !EmailInUse(users, dto.emailAddress) && !UsernameInUse(users, dto.username)
    requires !EmailInUse(users, dto.username)
    ensures LoginUser(users + [NewUser(id, dto, hash, now)], hash, dto.username, dto.password) == Some(id)
  {
    var after := users + [NewUser(id, dto, hash, now)];
    forall j | 0 <= j < |users| ensures !NameMatches(after[j], dto.username) {
      assert after[j] == users[j] && users[j] in users;
    }
    assert NameMatches(after[|users|], dto.username);
    assert LoginIndex(after, dto.username) == Some(|users|);
  }

  /** The side condition of LoginAfterRegister is needed: registration only
      compares emails with emails and usernames with usernames, so "bob"
      can be registered as a username while an older account uses "bob" as
      its email, and a login as "bob" then reaches the older account. */
  lemma LoginAfterRegisterCanReachOlderAccount()
    ensures var hash := (s: string) => s;
            var users := [User(1, "alice", "", "bob", "pw-a", 0, DefaultRole)];
            var dto := RegistrationDto("bob", "", "bob@example.org", "pw-b");
            && !EmailInUse(users, dto.emailAddress) && !UsernameInUse(users, dto.username)
            && LoginIndex(users + [NewUser(2, dto, hash, 0)], "bob") == Some(0)
            && LoginUser(users + [NewUser(2, dto, hash, 0)], hash, "bob", "pw-b") == None
  {
    var hash := (s: string) => s;
    var users := [User(1, "alice", "", "bob", "pw-a", 0, DefaultRole)];
    var dto := RegistrationDto("bob", "", "bob@example.org", "pw-b");
    var after := users + [NewUser(2, dto, hash, 0)];
    assert NameMatches(after[0], "bob");
    assert LoginIndex(after, "bob") == Some(0);
  }

  /** POST api/User/login: on matching credentials the session holds the
      user's id (Ok); otherwise Unauthorized and the session is untouched. */
  method Login(db: Store, username: string, password: string) returns (r: Status)
    requires db.Valid()
    modifies db`sessionUserId
    ensures db.Valid()
    ensures r == Ok || r == Unauthorized
    ensures r == Ok <==> LoginUser(db.users, db.hash, username, password).Some?
    ensures r == Ok ==> db.sessionUserId == LoginUser(db.users, db.hash, username, password)
    ensures r == Unauthorized ==> db.sessionUserId == old(db.sessionUserId)
  {
    var k := LoginIndex(db.users, username);
    if k.None? || !VerifyPassword(db.hash, password, db.users[k.value].passwordHash) {
      return Unauthorized;
    }
    db.sessionUserId := Some(db.users[k.value].id);
    r := Ok;
  }

  /** The profile after an update: a blank new email or password leaves that
      field as it was; a new password is stored hashed. */
  function UpdatedProfile(u: User, newEmail: string, newPassword: string, hash: string -> string): (r: User)
    ensures r.id == u.id && r.username == u.username && r.fullname == u.fullname
    ensures r.createdAt == u.createdAt && r.role == u.role
    ensures r.emailAddress == (if IsBlank(newEmail) then u.emailAddress else newEmail)
    ensures IsBlank(newPassword) ==> r.passwordHash == u.passwordHash
    ensures !IsBlank(newPassword) ==> VerifyPassword(hash, newPassword, r.passwordHash)
  {
    u.(emailAddress := if IsBlank(newEmail) then u.emailAddress else newEmail,
       passwordHash := if IsBlank(newPassword) then u.passwordHash else hash(newPassword))
  }

  predicate EmailTakenByOther(users: seq<User>, email: string, id: int)
  {
    exists u :: u in users && u.emailAddress == email && u.id != id
  }

  /** An update that passed the email check keeps emails and usernames unique. */
  lemma ProfileUpdateKeepsCredentialsUnique(users: seq<User>, k: nat, newEmail: string, newPassword: string,
                                            hash: string -> string)
    requires UniqueKeys(users, UserKey) && UniqueCredentials(users) && k < |users|
    requires IsBlank(newEmail) || !EmailTakenByOther(users, newEmail, users[k].id)
    ensures UniqueCredentials(users[k := UpdatedProfile(users[k], newEmail, newPassword, hash)])
  {
    var r := users[k := UpdatedProfile(users[k], newEmail, newPassword, hash)];
    forall i | 0 <= i < |users| && i != k ensures r[i].emailAddress != r[k].emailAddress {
      assert users[i] in users;
      assert UserKey(users[i]) != UserKey(users[k]);
    }
  }

  /** PUT api/User/update: Unauthorized with nobody logged in, NotFound when
      the session's user does not exist, BadRequest (changing nothing) when
      a non-blank new email belongs to another user; otherwise only the
      session user's row changes, as UpdatedProfile says. */
  method UpdateUser(db: Store, newEmail: string, newPassword: string) returns (r: Status)
    requires db.Valid()
    modifies db`users
    ensures db.Valid()
    ensures r == Ok || r == Unauthorized || r == NotFound || r == BadRequest
    ensures r == Unauthorized <==> db.sessionUserId.None?
    ensures r == NotFound <==> db.sessionUserId.Some? && forall u :: u in old(db.users) ==> u.id != db.sessionUserId.value
    ensures r == BadRequest <==>
              && db.sessionUserId.Some?
              && (exists u :: u in old(db.users) && u.id == db.sessionUserId.value)
              && !IsBlank(newEmail) && EmailTakenByOther(old(db.users), newEmail, db.sessionUserId.value)
    ensures r != Ok ==> db.users == old(db.users)
    ensures r == Ok ==>
              var k := FirstIndex(old(db.users), UserKey, db.sessionUserId.value).value;
              db.users == old(db.users)[k := UpdatedProfile(old(db.users)[k], newEmail, newPassword, db.hash)]
    ensures UniqueCredentials(old(db.users)) ==> UniqueCredentials(db.users)
  {
    if db.sessionUserId.None? {
      return Unauthorized;
    }
    var userId := db.sessionUserId.value;
    var k := FirstIndex(db.users, UserKey, userId);
    if k.None? {
      assert forall u :: u in db.users ==> UserKey(u) != userId;
      return NotFound;
    }
    var user := db.users[k.value];
    assert user in db.users;
    if !IsBlank(newEmail) {
      if EmailTakenByOther(db.users, newEmail, user.id) {
        return BadRequest;
      }
      user := user.(emailAddress := newEmail);
    }
    if !IsBlank(newPassword) {
      user := user.(passwordHash := db.hash(newPassword));
    }
    assert user == UpdatedProfile(db.users[k.value], newEmail, newPassword, db.hash);
    ReplaceSameKey(db.users, UserKey, db.nextUserId, k.value, user);
    if UniqueCredentials(db.users) {
      ProfileUpdateKeepsCredentialsUnique(db.users, k.value, newEmail, newPassword, db.hash);
    }
    db.users := db.users[k.value := user];
    r := Ok;
  }

  /** POST api/User/logout: the session is emptied. */
  method Logout(db: Store) returns (r: Status)
    requires db.Valid()
    modifies db`sessionUserId
    ensures db.Valid()
    ensures r == Ok && db.sessionUserId.None?
  {
    db.sessionUserId := None;
    r := Ok;
  }

  /** DELETE api/User/delete/{id}: Unauthorized (not Forbidden) unless the
      session's user is an admin, NotFound when no user has this id;
      otherwise exactly that user is removed (Ok). */
  method DeleteUser(db: Store, id: int) returns (r: Status)
    requires db.Valid()
    modifies db`users
    ensures db.Valid()
    ensures r == Ok || r == Unauthorized || r == NotFound
    ensures r == Unauthorized <==> !(db.sessionUserId.Some? && IsAdmin(old(db.users), db.sessionUserId.value))
    ensures r == NotFound <==> db.sessionUserId.Some? && IsAdmin(old(db.users), db.sessionUserId.value)
                               && forall u :: u in old(db.users) ==> u.id != id
    ensures r != Ok ==> db.users == old(db.users)
    ensures r == Ok ==> db.users == RemoveAt(old(db.users), FirstIndex(old(db.users), UserKey, id).value)
    ensures r == Ok ==> forall u :: u in db.users ==> u.id != id
  {
    if db.sessionUserId.None? || !IsAdmin(db.users, db.sessionUserId.value) {
      return Unauthorized;
    }
    var k := FirstIndex(db.users, UserKey, id);
    if k.None? {
      assert forall u :: u in db.users ==> UserKey(u) != id;
      return NotFound;
    }
    RemoveAtDropsRow(db.users, UserKey, k.value);
    db.users := RemoveAt(db.users, k.value);
    r := Ok;
  }
}
