/** The account operations of the user service: role change, profile, email
    and password updates. Password matching and encoding belong to an
    encoder whose behaviour is not part of this model, so it is a parameter.
    Saving a user row applies the two constraints declared on the entity:
    the phone pattern (bean validation) and the unique email column. */
module UserService {
  import opened Common
  import opened Entities

  /** The password encoder, taken as two uninterpreted functions. */
  datatype PasswordEncoder = PasswordEncoder(matches: (string, string) -> bool, encode: string -> string)

  /** Whether some user other than `id` already uses `email`. */
  predicate EmailTakenByOther(users: map<UserId, User>, id: UserId, email: string)
  {
    exists k | k in users :: k != id && users[k].email == email
  }

  /** `userRepository.save(u)`: the row is validated, then written under its id. */
  function SaveUser(db: Store, u: User): (r: Result<Store>)
    ensures r.Ok? <==> RowConstraints(u) && !EmailTakenByOther(db.users, u.id, u.email)
    ensures r.Ok? ==> r.value == db.(users := db.users[u.id := u])
    ensures r.Err? ==> r.error.ConstraintViolation?
  {
    if u.phoneNumber.Some? && !PhonePattern(u.phoneNumber.value) then Err(ConstraintViolation("phoneNumber"))
    else if EmailTakenByOther(db.users, u.id, u.email) then Err(ConstraintViolation("email"))
    else Ok(db.(users := db.users[u.id := u]))
  }

  /** A saved row keeps the database valid. */
  lemma SaveUserPreservesValid(db: Store, u: User)
    requires Valid(db)
    requires SaveUser(db, u).Ok?
    ensures Valid(SaveUser(db, u).value)
  {
    var db' := SaveUser(db, u).value;
    forall a, b | a in db'.users && b in db'.users && db'.users[a].email == db'.users[b].email
      ensures a == b
    {
      if a != u.id && b != u.id {
        assert db.users[a].email == db.users[b].email;
      }
    }
  }

  /** A token that still authenticates its user. */
  predicate Live(t: Token)
  {
    !t.expired || !t.revoked
  }

  /** `revokeAllUserTokens`: every token of the user is marked expired and
      revoked; other users' tokens stay as they were. */
  function RevokeAllUserTokens(tokens: map<TokenId, Token>, userId: UserId): (r: map<TokenId, Token>)
    ensures r.Keys == tokens.Keys
    ensures forall k | k in r && r[k].user == userId :: !Live(r[k])
    ensures forall k | k in tokens && tokens[k].user != userId :: r[k] == tokens[k]
    ensures forall k | k in tokens :: r[k].user == tokens[k].user
  {
    map k | k in tokens ::
      if tokens[k].user == userId then tokens[k].(expired := true, revoked := true) else tokens[k]
  }

  /** `findUserByEmail`: the user whose email is `email`; when the unique
      column is respected there is at most one. */
  function FindUserByEmail(users: map<UserId, User>, email: string): (r: Option<UserId>)
    ensures r.None? <==> forall k | k in users :: users[k].email != email
    ensures r.Some? ==> r.value in users && users[r.value].email == email
  {
    var ids := set k | k in users && users[k].email == email;
    if ids == {} then
      assert forall k | k in users :: k !in ids;
      None
    else Some(Min(ids))
  }

  /** `setRole`: the stored user with the given user's email gets `role`. */
  function SetRole(db: Store, user: User, role: Role): (r: Result<Store>)
    ensures (forall k | k in db.users :: db.users[k].email != user.email) ==> r == Err(UserMissing)
    ensures r.Ok? ==> exists k | k in db.users :: db.users[k].email == user.email
                                                && r.value == db.(users := db.users[db.users[k].id := db.users[k].(role := role)])
  {
    match FindUserByEmail(db.users, user.email)
    case None => Err(UserMissing)
    case Some(k) => SaveUser(db, db.users[k].(role := role))
  }

  /** In a valid database `setRole` succeeds exactly when the email is
      stored, and then changes the role of that one user and nothing else. */
  lemma SetRoleChangesOnlyRole(db: Store, user: User, role: Role)
    requires Valid(db)
    ensures SetRole(db, user, role).Ok? <==> exists k | k in db.users :: db.users[k].email == user.email
    ensures SetRole(db, user, role).Ok? ==>
              var db' := SetRole(db, user, role).value;
              && db'.users.Keys == db.users.Keys
              && (forall k | k in db.users && db.users[k].email == user.email :: db'.users[k] == db.users[k].(role := role))
              && (forall k | k in db.users && db.users[k].email != user.email :: db'.users[k] == db.users[k])
              && db'.courses == db.courses && db'.meetings == db.meetings && db'.requests == db.requests
              && db'.tokens == db.tokens
    ensures SetRole(db, user, role).Ok? ==> Valid(SetRole(db, user, role).value)
  {
    match FindUserByEmail(db.users, user.email)
    case None =>
    case Some(k) =>
      var u := db.users[k].(role := role);
      assert !EmailTakenByOther(db.users, u.id, u.email);
      SaveUserPreservesValid(db, u);
  }

  /** `updateProfile`: degree, names, phone and description are copied from
      `data`; email, password and role are kept. */
  function UpdateProfile(db: Store, user: Option<User>, data: User): (r: Result<Store>)
    ensures user.None? ==> r == Err(UserMissing)
    ensures user.Some? && data.phoneNumber.Some? && !PhonePattern(data.phoneNumber.value) ==>
              r == Err(ConstraintViolation("phoneNumber"))
    ensures r.Ok? <==> user.Some? && RowConstraints(data) && !EmailTakenByOther(db.users, user.value.id, user.value.email)
    ensures r.Ok? ==>
              var u := user.value;
              && u.id in r.value.users
              && var saved := r.value.users[u.id];
              && r.value.users == db.users[u.id := saved]
              && saved.id == u.id && saved.email == u.email && saved.password == u.password && saved.role == u.role
              && saved.degree == data.degree && saved.firstName == data.firstName
              && saved.lastName == data.lastName && saved.phoneNumber == data.phoneNumber
              && saved.description == data.description
              && r.value.tokens == db.tokens && r.value.courses == db.courses
  {
    match user
    case None => Err(UserMissing)
    case Some(u) =>
      SaveUser(db, u.(degree := data.degree, firstName := data.firstName, lastName := data.lastName,
                      phoneNumber := data.phoneNumber, description := data.description))
  }

  /** For the stored user of a valid database, a profile update succeeds
      exactly when the new phone number, if any, matches the pattern, and
      then the database stays valid. */
  lemma UpdateProfileSucceeds(db: Store, id: UserId, data: User)
    requires Valid(db) && id in db.users
    ensures UpdateProfile(db, Some(db.users[id]), data).Ok? <==> RowConstraints(data)
    ensures UpdateProfile(db, Some(db.users[id]), data).Ok? ==> Valid(UpdateProfile(db, Some(db.users[id]), data).value)
  {
    var u := db.users[id];
    assert !EmailTakenByOther(db.users, id, u.email);
    if UpdateProfile(db, Some(u), data).Ok? {
      SaveUserPreservesValid(db, u.(degree := data.degree, firstName := data.firstName, lastName := data.lastName,
                                    phoneNumber := data.phoneNumber, description := data.description));
    }
  }

  /** `updateEmail(user, oldEmail, email, password)` */
  function UpdateEmail(db: Store, user: Option<User>, oldEmail: string, email: string, password: string,
                       encoder: PasswordEncoder): (r: Result<Store>)
    ensures user.None? ==> r == Err(UserMissing)
    ensures user.Some? && user.value.email == email ==>
              r == Err(Custom("New email is equal to actual email.", BAD_REQUEST))
    ensures user.Some? && user.value.email != email && oldEmail != user.value.email ==>
              r == Err(Custom("Old email is not equal to actual email.", BAD_REQUEST))
    ensures (user.Some? && user.value.email != email && oldEmail == user.value.email
             && !encoder.matches(password, user.value.password)) ==>
              r == Err(Custom("Password is incorrect.", BAD_REQUEST))
    ensures (user.Some? && user.value.email != email && oldEmail == user.value.email
             && encoder.matches(password, user.value.password) && RowConstraints(user.value)
             && EmailTakenByOther(db.users, user.value.id, email)) ==>
              r == Err(ConstraintViolation("email"))
    ensures r.Ok? <==>
              && user.Some? && user.value.email != email && oldEmail == user.value.email
              && encoder.matches(password, user.value.password)
              && RowConstraints(user.value) && !EmailTakenByOther(db.users, user.value.id, email)
    ensures r.Ok? ==>
              var u := user.value;
              && encoder.matches(password, u.password)
              && r.value.users == db.users[u.id := u.(email := email)]
              && r.value.tokens == RevokeAllUserTokens(db.tokens, u.id)
              && r.value.courses == db.courses && r.value.meetings == db.meetings
  {
    match user
    case None => Err(UserMissing)
    case Some(u) =>
      if u.email == email then Err(Custom("New email is equal to actual email.", BAD_REQUEST))
      else if oldEmail != u.email then Err(Custom("Old email is not equal to actual email.", BAD_REQUEST))
      else if encoder.matches(password, u.password) then
        match SaveUser(db, u.(email := email))
        case Err(e) => Err(e)
        case Ok(db') => Ok(db'.(tokens := RevokeAllUserTokens(db'.tokens, u.id)))
      else Err(Custom("Password is incorrect.", BAD_REQUEST))
  }

  /** For the stored user of a valid database, an email change with the
      right old email and password succeeds exactly when no other user has
      the new email, and then the database stays valid. */
  lemma UpdateEmailSucceeds(db: Store, id: UserId, email: string, password: string, encoder: PasswordEncoder)
    requires Valid(db) && id in db.users
    requires email != db.users[id].email && encoder.matches(password, db.users[id].password)
    ensures UpdateEmail(db, Some(db.users[id]), db.users[id].email, email, password, encoder).Ok?
            <==> forall k | k in db.users && k != id :: db.users[k].email != email
    ensures UpdateEmail(db, Some(db.users[id]), db.users[id].email, email, password, encoder).Ok? ==>
              Valid(UpdateEmail(db, Some(db.users[id]), db.users[id].email, email, password, encoder).value)
  {
    var u := db.users[id];
    if UpdateEmail(db, Some(u), u.email, email, password, encoder).Ok? {
      SaveUserPreservesValid(db, u.(email := email));
    }
  }

  /** Changing the email and then changing it back restores the user table;
      only the revoked tokens remain as a trace. */
  lemma UpdateEmailRoundTrip(db: Store, id: UserId, email: string, password: string, encoder: PasswordEncoder)
    requires Valid(db) && id in db.users
    requires UpdateEmail(db, Some(db.users[id]), db.users[id].email, email, password, encoder).Ok?
    ensures
      var original := db.users[id].email;
      var db1 := UpdateEmail(db, Some(db.users[id]), original, email, password, encoder).value;
      var back := UpdateEmail(db1, Some(db1.users[id]), email, original, password, encoder);
      && back.Ok?
      && back.value.users == db.users
      && back.value.tokens == RevokeAllUserTokens(db.tokens, id)
  {
    var u := db.users[id];
    var db1 := UpdateEmail(db, Some(u), u.email, email, password, encoder).value;
    var u1 := db1.users[id];
    assert u1 == u.(email := email);
    assert !EmailTakenByOther(db1.users, id, u.email) by {
      forall k | k in db1.users && k != id
        ensures db1.users[k].email != u.email
      {
        assert db1.users[k] == db.users[k];
      }
    }
    var db2 := UpdateEmail(db1, Some(u1), email, u.email, password, encoder).value;
    assert db2.users == db.users by {
      assert db2.users == db1.users[id := u];
    }
    forall k | k in db.tokens
      ensures RevokeAllUserTokens(db1.tokens, id)[k] == RevokeAllUserTokens(db.tokens, id)[k]
    {
    }
  }

  /** `updatePassword(user, newPassword, oldPassword)`; the raw strings are
      compared before the stored hash is consulted. */
  function UpdatePassword(db: Store, user: Option<User>, newPassword: string, oldPassword: string,
                          encoder: PasswordEncoder): (r: Result<Store>)
    ensures user.None? ==> r == Err(UserMissing)
    ensures user.Some? && newPassword == oldPassword ==>
              r == Err(Custom("New password is qual to old password.", BAD_REQUEST))
    ensures user.Some? && newPassword != oldPassword && !encoder.matches(oldPassword, user.value.password) ==>
              r == Err(Custom("Password is incorrect.", BAD_REQUEST))
    ensures r.Ok? ==>
              var u := user.value;
              && newPassword != oldPassword && encoder.matches(oldPassword, u.password)
              && r.value.users == db.users[u.id := u.(password := encoder.encode(newPassword))]
              && r.value.tokens == RevokeAllUserTokens(db.tokens, u.id)
              && r.value.courses == db.courses && r.value.meetings == db.meetings
  {
    match user
    case None => Err(UserMissing)
    case Some(u) =>
      if newPassword == oldPassword then Err(Custom("New password is qual to old password.", BAD_REQUEST))
      else if encoder.matches(oldPassword, u.password) then
        match SaveUser(db, u.(password := encoder.encode(newPassword)))
        case Err(e) => Err(e)
        case Ok(db') => Ok(db'.(tokens := RevokeAllUserTokens(db'.tokens, u.id)))
      else Err(Custom("Password is incorrect.", BAD_REQUEST))
  }

  /** For the stored user of a valid database, a password change with a
      matching old password always succeeds and keeps the database valid. */
  lemma UpdatePasswordSucceeds(db: Store, id: UserId, newPassword: string, oldPassword: string, encoder: PasswordEncoder)
    requires Valid(db) && id in db.users
    requires newPassword != oldPassword && encoder.matches(oldPassword, db.users[id].password)
    ensures UpdatePassword(db, Some(db.users[id]), newPassword, oldPassword, encoder).Ok?
    ensures Valid(UpdatePassword(db, Some(db.users[id]), newPassword, oldPassword, encoder).value)
  {
    var u := db.users[id].(password := encoder.encode(newPassword));
    assert !EmailTakenByOther(db.users, id, u.email);
    SaveUserPreservesValid(db, u);
  }
}
