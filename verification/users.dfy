/** The user handlers: account management, login and password reset.
    Passwords are stored only as hashes and never appear in a reply; a login
    gives out a token whose claims name the user. Hashing and comparing are
    oracles (`bcrypt.hash`, `bcrypt.compare`), and the token is represented
    by its claims. */
module Users {
  import opened Js
  import opened Store
  import opened Http

  /** A row of the `Users` table; `password` holds a hash. */
  datatype User = User(fullname: Value, email: Value, password: Value)

  /** A user as every reply shows one: no password. */
  datatype UserView = UserView(fullname: Value, email: Value)

  type UserStep = Step<User, UserView>

  /** `bcrypt.hash(password, 10)`. */
  type Hash = Value -> Outcome<string>

  /** `bcrypt.compare(password, hash)`. */
  type Compare = (Value, Value) -> Outcome<bool>

  const Incomplete := "All fields are required"
  const NotFound := "User not found"
  const Deleted := "User deleted successfully!"
  const Retrieved := "User retrieved successfully"
  const LoginIncomplete := "Email and password are required"
  const BadCredentials := "Invalid email or password"
  const LoggedIn := "Login successful"
  const ResetIncomplete := "Email and new password are required"
  const ResetDone := "Password reset successful"

  function View(u: User): UserView {
    UserView(u.fullname, u.email)
  }

  function EmailOf(u: User): Value {
    u.email
  }

  predicate RowOk(u: User) {
    NonNull(u.fullname) && NonNull(u.email) && NonNull(u.password)
  }

  ghost predicate Valid(t: Table<User>) {
    && WellKeyed(t)
    && Unique(t, EmailOf)
    && forall id :: id in t.rows ==> RowOk(t.rows[id])
  }

  /** `User.findOne({ where: { email } })`. */
  function ByEmail(t: Table<User>, email: Value): (r: Option<nat>)
    ensures r.Some? ==> r.value in t.rows && t.rows[r.value].email == email
    ensures r.None? <==> forall id :: id in t.rows ==> t.rows[id].email != email
  {
    FindOne(t, (u: User) => u.email == email)
  }

  // ---------------------------------------------------------------------
  // Account management

  /** `createUser`: the reply shows the id, name and email only. */
  function CreateUser(body: Body, t: Table<User>, hash: Hash, db: Db): (r: UserStep)
    ensures r.log == []
    ensures r.reply.status in {201, 400, 500}
    ensures r.reply.status == 400 <==>
      !Truthy(Field(body, "fullname")) || !Truthy(Field(body, "email")) || !Truthy(Field(body, "password"))
    ensures r.reply.status != 201 ==> r.table == t
    ensures r.reply.status == 201 ==>
      && hash(Field(body, "password")).Returned?
      && r.reply.payload == Shown(t.next, UserView(Field(body, "fullname"), Field(body, "email")))
      && r.table == Insert(t, User(Field(body, "fullname"), Field(body, "email"), Str(hash(Field(body, "password")).value)))
    ensures r.reply.status == 201 ==> !Taken(t, EmailOf, Field(body, "email"), None)
    ensures Truthy(Field(body, "fullname")) && Truthy(Field(body, "email")) && Truthy(Field(body, "password")) ==>
      r.reply.status ==
        (if hash(Field(body, "password")).Returned? && WriteError(db, Taken(t, EmailOf, Field(body, "email"), None)).None?
         then 201 else 500)
    ensures Valid(t) ==> Valid(r.table)
  {
    var fullname, email, password := Field(body, "fullname"), Field(body, "email"), Field(body, "password");
    if !Truthy(fullname) || !Truthy(email) || !Truthy(password) then Refuse(400, Incomplete, t)
    else match hash(password)
      case Threw(message) => Refuse(500, message, t)
      case Returned(hashed) =>
        var user := User(fullname, email, Str(hashed));
        match WriteError(db, Taken(t, EmailOf, email, None))
        case Some(message) => Refuse(500, message, t)
        case None => Step(Reply(201, Shown(t.next, View(user))), Insert(t, user), [])
  }

  /** `getAllUsers`: every user, without passwords. */
  function GetAllUsers(t: Table<User>, db: Db): (r: UserStep)
    ensures r.table == t && r.log == []
    ensures db.readFault.None? <==> r.reply.status == 200
    ensures r.reply.status == 200 ==> r.reply.payload == Listed(ListViews(t, View))
  {
    match db.readFault
    case Some(message) => Refuse(500, message, t)
    case None => Step(Reply(200, Listed(ListViews(t, View))), t, [])
  }

  /** `getAuthUser`: the user the request's token names. */
  function GetAuthUser(claims: Claims, t: Table<User>, db: Db): (r: UserStep)
    ensures r.table == t && r.log == []
    ensures db.readFault.None? ==> (r.reply.status == 200 <==> claims.id in t.rows)
    ensures r.reply.status == 200 ==>
      claims.id in t.rows && r.reply.payload == ShownWith(claims.id, View(t.rows[claims.id]), Retrieved)
    ensures r.reply.status == 404 ==> r.reply.payload == Error(NotFound)
    ensures db.readFault.Some? ==> r.reply.status == 500
    ensures db.readFault.None? && claims.id !in t.rows ==> r.reply == Reply(404, Error(NotFound))
  {
    if db.readFault.Some? then Refuse(500, db.readFault.value, t)
    else if claims.id !in t.rows then Refuse(404, NotFound, t)
    else Step(Reply(200, ShownWith(claims.id, View(t.rows[claims.id]), Retrieved)), t, [])
  }

  /** `getUserById`. */
  function GetUser(id: nat, t: Table<User>, db: Db): (r: UserStep)
    ensures r.table == t && r.log == []
    ensures db.readFault.None? ==> (r.reply.status == 200 <==> id in t.rows)
    ensures r.reply.status == 200 ==> id in t.rows && r.reply.payload == Shown(id, View(t.rows[id]))
    ensures r.reply.status == 404 ==> r.reply.payload == Error(NotFound)
    ensures db.readFault.Some? ==> r.reply.status == 500
    ensures db.readFault.None? && id !in t.rows ==> r.reply == Reply(404, Error(NotFound))
  {
    if db.readFault.Some? then Refuse(500, db.readFault.value, t)
    else if id !in t.rows then Refuse(404, NotFound, t)
    else Step(Reply(200, Shown(id, View(t.rows[id]))), t, [])
  }

  /** `updateUser`: a new password is hashed, empty fields keep their values. */
  function UpdateUser(id: nat, body: Body, t: Table<User>, hash: Hash, db: Db): (r: UserStep)
    ensures r.log == []
    ensures r.reply.status in {200, 404, 500}
    ensures db.readFault.None? ==> (r.reply.status == 404 <==> id !in t.rows)
    ensures r.reply.status != 200 ==> r.table == t
    ensures db.readFault.Some? ==> r.reply.status == 500
    ensures r.reply.status == 404 ==> r.reply.payload == Error(NotFound)
    ensures db.readFault.None? && id in t.rows ==>
      var password := Field(body, "password");
      var email := Or(Field(body, "email"), t.rows[id].email);
      r.reply.status ==
        (if (Truthy(password) ==> hash(password).Returned?) && WriteError(db, Taken(t, EmailOf, email, Some(id))).None?
         then 200 else 500)
    ensures r.reply.status == 200 ==>
      && id in t.rows && id in r.table.rows
      && r.table == Put(t, id, r.table.rows[id])
      && r.reply.payload == Shown(id, View(r.table.rows[id]))
    ensures Valid(t) ==> Valid(r.table)
  {
    if db.readFault.Some? then Refuse(500, db.readFault.value, t)
    else if id !in t.rows then Refuse(404, NotFound, t)
    else
      var user := t.rows[id];
      var password := Field(body, "password");
      match (if Truthy(password) then hash(password) else Returned(""))
      case Threw(message) => Refuse(500, message, t)
      case Returned(h) =>
        var updated := User(
          Or(Field(body, "fullname"), user.fullname),
          Or(Field(body, "email"), user.email),
          if Truthy(password) then Str(h) else user.password);
        match WriteError(db, Taken(t, EmailOf, updated.email, Some(id)))
        case Some(message) => Refuse(500, message, t)
        case None => Step(Reply(200, Shown(id, View(updated))), Put(t, id, updated), [])
  }

  /** `deleteUser`. */
  function DeleteUser(id: nat, t: Table<User>, db: Db): (r: UserStep)
    ensures r.log == []
    ensures db.readFault.None? ==> (r.reply.status == 404 <==> id !in t.rows)
    ensures r.reply.status != 200 ==> r.table == t
    ensures r.reply.status == 200 <==> db.readFault.None? && db.writeFault.None? && id in t.rows
    ensures r.reply.status == 200 ==> r.table == Drop(t, id) && r.reply.payload == Message(Deleted)
    ensures db.readFault.Some? ==> r.reply.status == 500
    ensures r.reply.status == 404 ==> r.reply.payload == Error(NotFound)
    ensures Valid(t) ==> Valid(r.table)
  {
    if db.readFault.Some? then Refuse(500, db.readFault.value, t)
    else if id !in t.rows then Refuse(404, NotFound, t)
    else match db.writeFault
      case Some(message) => Refuse(500, message, t)
      case None => Step(Reply(200, Message(Deleted)), Drop(t, id), [])
  }

  // ---------------------------------------------------------------------
  // Login and password reset

  /** `loginUser`: an unknown email and a wrong password get the same 401
      reply; success gives the claims of the user whose email matched and
      whose stored hash the password verified against. */
  function LoginUser(body: Body, t: Table<User>, compare: Compare, db: Db): (r: UserStep)
    ensures r.table == t && r.log == []
    ensures r.reply.status in {200, 400, 401, 500}
    ensures r.reply.status == 400 <==> !Truthy(Field(body, "email")) || !Truthy(Field(body, "password"))
    ensures r.reply.status == 401 ==> r.reply.payload == Error(BadCredentials)
    ensures Truthy(Field(body, "email")) && Truthy(Field(body, "password")) && db.readFault.Some?
      ==> r.reply.status == 500
    ensures r.reply.status == 200 ==>
      && r.reply.payload.Granted? && r.reply.payload.message == LoggedIn
      && var c := r.reply.payload.claims;
         c.id in t.rows && t.rows[c.id].email == Field(body, "email") && c.email == Field(body, "email")
         && compare(Field(body, "password"), t.rows[c.id].password) == Returned(true)
  {
    var email, password := Field(body, "email"), Field(body, "password");
    if !Truthy(email) || !Truthy(password) then Refuse(400, LoginIncomplete, t)
    else if db.readFault.Some? then Refuse(500, db.readFault.value, t)
    else match ByEmail(t, email)
      case None => Refuse(401, BadCredentials, t)
      case Some(id) =>
        match compare(password, t.rows[id].password)
        case Threw(message) => Refuse(500, message, t)
        case Returned(ok) =>
          if !ok then Refuse(401, BadCredentials, t)
          else Step(Reply(200, Granted(LoggedIn, Claims(id, t.rows[id].email))), t, [])
  }

  /** `resetPassword`: only the password of the user with that email
      changes. */
  function ResetPassword(body: Body, t: Table<User>, hash: Hash, db: Db): (r: UserStep)
    ensures r.log == []
    ensures r.reply.status in {200, 400, 404, 500}
    ensures r.reply.status == 400 <==> !Truthy(Field(body, "email")) || !Truthy(Field(body, "newPassword"))
    ensures r.reply.status != 200 ==> r.table == t
    ensures r.reply.status == 404 ==> forall id :: id in t.rows ==> t.rows[id].email != Field(body, "email")
    ensures Truthy(Field(body, "email")) && Truthy(Field(body, "newPassword")) && db.readFault.None?
      ==> (r.reply.status == 404 <==> ByEmail(t, Field(body, "email")).None?)
    ensures Truthy(Field(body, "email")) && Truthy(Field(body, "newPassword")) && db.readFault.Some?
      ==> r.reply.status == 500
    ensures (Truthy(Field(body, "email")) && Truthy(Field(body, "newPassword")) && db.readFault.None?
             && ByEmail(t, Field(body, "email")).Some?) ==>
      r.reply.status == (if hash(Field(body, "newPassword")).Returned? && db.writeFault.None? then 200 else 500)
    ensures r.reply.status == 200 ==>
      && r.reply.payload == Message(ResetDone)
      && hash(Field(body, "newPassword")).Returned?
      && ByEmail(t, Field(body, "email")).Some?
      && var id := ByEmail(t, Field(body, "email")).value;
         r.table == Put(t, id, t.rows[id].(password := Str(hash(Field(body, "newPassword")).value)))
    ensures Valid(t) ==> Valid(r.table)
  {
    var email, newPassword := Field(body, "email"), Field(body, "newPassword");
    if !Truthy(email) || !Truthy(newPassword) then Refuse(400, ResetIncomplete, t)
    else if db.readFault.Some? then Refuse(500, db.readFault.value, t)
    else match ByEmail(t, email)
      case None => Refuse(404, NotFound, t)
      case Some(id) =>
        match hash(newPassword)
        case Threw(message) => Refuse(500, message, t)
        case Returned(h) =>
          match db.writeFault
          case Some(message) => Refuse(500, message, t)
          case None =>
            PasswordChangeKeepsValid(t, id, Str(h));
            Step(Reply(200, Message(ResetDone)), Put(t, id, t.rows[id].(password := Str(h))), [])
  }

  /** Replacing one user's password keeps the table's constraints. */
  lemma PasswordChangeKeepsValid(t: Table<User>, id: nat, h: Value)
    requires id in t.rows && NonNull(h)
    ensures Valid(t) ==> Valid(Put(t, id, t.rows[id].(password := h)))
  {
    if Valid(t) {
      assert !Taken(t, EmailOf, t.rows[id].email, Some(id));
      PutKeepsKeys(t, EmailOf, id, t.rows[id].(password := h));
    }
  }

  // ---------------------------------------------------------------------
  // Properties

  /** `hash` and `compare` agree: a password verifies against its own hash. */
  ghost predicate Consistent(hash: Hash, compare: Compare) {
    forall p :: hash(p).Returned? ==> compare(p, Str(hash(p).value)) == Returned(true)
  }

  /** The 401 reply says nothing about which check failed: a login is
      refused with the same reply whether no user has the email or the
      password does not verify. */
  lemma LoginFailuresIndistinguishable(body: Body, t: Table<User>, compare: Compare, db: Db)
    requires Truthy(Field(body, "email")) && Truthy(Field(body, "password")) && db.readFault.None?
    ensures var r := LoginUser(body, t, compare, db);
      var id := ByEmail(t, Field(body, "email"));
      && (id.None? ==> r.reply == Reply(401, Error(BadCredentials)))
      && (id.Some? && compare(Field(body, "password"), t.rows[id.value].password) == Returned(false) ==>
            r.reply == Reply(401, Error(BadCredentials)))
      && (r.reply.status == 401 <==>
            id.None? || compare(Field(body, "password"), t.rows[id.value].password) == Returned(false))
  {
    var id := ByEmail(t, Field(body, "email"));
    if id.Some? {
      var v := compare(Field(body, "password"), t.rows[id.value].password);
      if v.Returned? && v.value {
        assert LoginUser(body, t, compare, db).reply.status == 200;
      }
    }
  }

  /** A user created with a password can log in with it, and the token names
      the new user. */
  lemma CreatedUserCanLogIn(body: Body, t: Table<User>, hash: Hash, compare: Compare, db: Db)
    requires Valid(t) && Consistent(hash, compare)
    requires CreateUser(body, t, hash, db).reply.status == 201
    requires db.readFault.None?
    ensures var r := CreateUser(body, t, hash, db);
      LoginUser(map["email" := Field(body, "email"), "password" := Field(body, "password")], r.table, compare, db).reply
        == Reply(200, Granted(LoggedIn, Claims(t.next, Field(body, "email"))))
  {
    var r := CreateUser(body, t, hash, db);
    var email := Field(body, "email");
    var login := map["email" := email, "password" := Field(body, "password")];
    assert Field(login, "email") == email && Field(login, "password") == Field(body, "password");
    InsertKeepsKeys(t, EmailOf, r.table.rows[t.next]);
    FindOneUnique(r.table, EmailOf, email, (u: User) => u.email == email, t.next);
  }

  /** After a reset, the new password logs in under the same id. */
  lemma ResetPasswordThenLogIn(body: Body, t: Table<User>, hash: Hash, compare: Compare, db: Db)
    requires Valid(t) && Consistent(hash, compare)
    requires ResetPassword(body, t, hash, db).reply.status == 200
    ensures LoginUser(map["email" := Field(body, "email"), "password" := Field(body, "newPassword")],
                      ResetPassword(body, t, hash, db).table, compare, db).reply
         == Reply(200, Granted(LoggedIn, Claims(ByEmail(t, Field(body, "email")).value, Field(body, "email"))))
  {
    var r := ResetPassword(body, t, hash, db);
    var email, password := Field(body, "email"), Field(body, "newPassword");
    var id := ByEmail(t, email).value;
    var h := hash(password).value;
    assert r.table == Put(t, id, t.rows[id].(password := Str(h)));
    assert Valid(r.table);
    FindOneUnique(r.table, EmailOf, email, (u: User) => u.email == email, id);
    var login := map["email" := email, "password" := password];
    assert Field(login, "email") == email && Field(login, "password") == password;
    LoginSucceeds(login, r.table, compare, db, id);
  }

  /** A login whose email finds a user and whose password verifies against
      that user's hash is granted with that user's claims. */
  lemma LoginSucceeds(body: Body, t: Table<User>, compare: Compare, db: Db, id: nat)
    requires Truthy(Field(body, "email")) && Truthy(Field(body, "password")) && db.readFault.None?
    requires ByEmail(t, Field(body, "email")) == Some(id)
    requires compare(Field(body, "password"), t.rows[id].password) == Returned(true)
    ensures LoginUser(body, t, compare, db).reply == Reply(200, Granted(LoggedIn, Claims(id, t.rows[id].email)))
  {
  }

  /** An update keeps what the body leaves empty, replaces the name and
      email it fills, and stores the hash of a new password, never the
      password itself. No other user changes. */
  lemma UpdateUserMerges(id: nat, body: Body, t: Table<User>, hash: Hash, db: Db)
    requires UpdateUser(id, body, t, hash, db).reply.status == 200
    ensures var r := UpdateUser(id, body, t, hash, db);
      var before := t.rows[id];
      var after := r.table.rows[id];
      var password := Field(body, "password");
      && r.table.rows.Keys == t.rows.Keys
      && (forall k :: k in t.rows && k != id ==> r.table.rows[k] == t.rows[k])
      && (Truthy(Field(body, "fullname")) ==> after.fullname == Field(body, "fullname"))
      && (!Truthy(Field(body, "fullname")) ==> after.fullname == before.fullname)
      && (Truthy(Field(body, "email")) ==> after.email == Field(body, "email"))
      && (!Truthy(Field(body, "email")) ==> after.email == before.email)
      && (Truthy(password) ==> hash(password).Returned? && after.password == Str(hash(password).value))
      && (!Truthy(password) ==> after.password == before.password)
  {
  }

  /** A deleted user is gone: reading it answers 404, and a login with its
      email now fails when no other user holds that email. */
  lemma DeletedUserIsGone(id: nat, body: Body, t: Table<User>, compare: Compare, db: Db)
    requires Valid(t)
    requires DeleteUser(id, t, db).reply.status == 200
    requires Field(body, "email") == t.rows[id].email
    requires Truthy(Field(body, "email")) && Truthy(Field(body, "password"))
    ensures var r := DeleteUser(id, t, db);
      && GetUser(id, r.table, Db(None, None)).reply == Reply(404, Error(NotFound))
      && LoginUser(body, r.table, compare, Db(None, None)).reply == Reply(401, Error(BadCredentials))
  {
    var r := DeleteUser(id, t, db);
    assert forall k :: k in r.table.rows ==> r.table.rows[k].email != Field(body, "email");
  }
}
