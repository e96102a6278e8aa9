/** The session transitions of app/routes/auth.py (register, login,
    logout) and the guard of app/routes/admin.py.

    The session is the three keys the routes write; a reply is a rendered
    page with its status, a 302 redirect, or a refusal with its status.
    Template contexts and message texts are not modelled. */
module Auth {
  import opened Common
  import opened Users

  datatype Session = Session(userId: Option<int>, username: Option<string>, isAdmin: Option<bool>)

  const EmptySession: Session := Session(None, None, None)

  datatype Reply = Render(status: int, template: string) | Redirect(location: string) | Refused(status: int)

  /** `POST /register`: a taken name is refused with 400 and nothing is
      created; otherwise the account is created, as admin and active only
      when it is the first account. */
  function Register(reg: Registry, hash: string -> string, username: string, password: string)
    : (out: (Reply, Registry))
    ensures FindByUsername(reg.users, username).Some? ==> out == (Render(400, "register.html"), reg)
    ensures FindByUsername(reg.users, username).None? ==>
      && out.0 == Render(200, "login.html")
      && |out.1.users| == |reg.users| + 1
      && out.1.users[..|reg.users|] == reg.users
      && var u := out.1.users[|reg.users|];
         u.username == username && u.passwordHash == hash(password)
         && u.isAdmin == (reg.users == []) && u.isActive == (reg.users == [])
  {
    if FindByUsername(reg.users, username).Some? then (Render(400, "register.html"), reg)
    else
      var first := IsFirstUser(reg);
      var created := CreateUser(reg, hash, username, password, first, first);
      assert created.1.users[..|reg.users|] == reg.users;
      (Render(200, "login.html"), created.1)
  }

  /** `POST /login`: a refused login renders the form with 400 and leaves
      the session alone; a successful one records the user and redirects
      home. */
  function Login(reg: Registry, hash: string -> string, session: Session, username: string, password: string)
    : (out: (Reply, Session))
    ensures Authenticate(reg, hash, username, password).None? ==> out == (Render(400, "login.html"), session)
    ensures Authenticate(reg, hash, username, password).Some? ==>
      var u := Authenticate(reg, hash, username, password).value;
      out == (Redirect("/"), Session(Some(u.id), Some(u.username), Some(u.isAdmin)))
  {
    var user := Authenticate(reg, hash, username, password);
    if user.None? then (Render(400, "login.html"), session)
    else (Redirect("/"), session.(userId := Some(user.value.id), username := Some(user.value.username),
                                  isAdmin := Some(user.value.isAdmin)))
  }

  /** `GET /logout`: the session is cleared. */
  function Logout(session: Session): (out: (Reply, Session))
    ensures out.1.userId.None? && out.1.username.None? && out.1.isAdmin.None?
    ensures out.0 == Redirect("/")
  {
    (Redirect("/"), EmptySession)
  }

  /** `require_admin`: `None` lets the handler proceed. A missing or falsy
      `user_id` redirects to the login page whatever `is_admin` says; a
      falsy `is_admin` is refused with 403. */
  function RequireAdmin(session: Session): (r: Option<Reply>)
    ensures !Truthy(session.userId) ==> r == Some(Redirect("/login"))
    ensures Truthy(session.userId) && session.isAdmin != Some(true) ==> r == Some(Refused(403))
    ensures r.None? <==> Truthy(session.userId) && session.isAdmin == Some(true)
  {
    if !Truthy(session.userId) then Some(Redirect("/login"))
    else if session.isAdmin != Some(true) then Some(Refused(403))
    else None
  }

  /** `GET /admin/users`: the guard, then the list of all users. */
  function UsersPage(reg: Registry, session: Session): (out: (Reply, seq<User>))
    ensures RequireAdmin(session).Some? ==> out == (RequireAdmin(session).value, [])
    ensures RequireAdmin(session).None? ==> out.0 == Render(200, "admin_users.html")
    ensures RequireAdmin(session).None? ==> forall x :: x in out.1 <==> x in reg.users
  {
    var guard := RequireAdmin(session);
    if guard.Some? then (guard.value, []) else (Render(200, "admin_users.html"), AllUsers(reg))
  }

  /** `POST /admin/users/{id}/approve`: the guard runs before the registry
      is touched; afterwards the reply is a redirect to the user list. */
  function ApproveRoute(reg: Registry, session: Session, id: int): (out: (Reply, Registry))
    ensures RequireAdmin(session).Some? ==> out == (RequireAdmin(session).value, reg)
    ensures RequireAdmin(session).None? ==> out == (Redirect("/admin/users"), ApproveUser(reg, id))
  {
    var guard := RequireAdmin(session);
    if guard.Some? then (guard.value, reg) else (Redirect("/admin/users"), ApproveUser(reg, id))
  }

  /** `POST /admin/users/{id}/delete`: as for approval. */
  function DeleteRoute(reg: Registry, session: Session, id: int): (out: (Reply, Registry))
    ensures RequireAdmin(session).Some? ==> out == (RequireAdmin(session).value, reg)
    ensures RequireAdmin(session).None? ==> out == (Redirect("/admin/users"), DeleteUser(reg, id))
  {
    var guard := RequireAdmin(session);
    if guard.Some? then (guard.value, reg) else (Redirect("/admin/users"), DeleteUser(reg, id))
  }

  /** The first account registered can log in at once and passes the admin
      guard. */
  lemma FirstUserIsAdmin(hash: string -> string, username: string, password: string, session: Session)
    ensures var reg := Register(EmptyRegistry, hash, username, password).1;
      var out := Login(reg, hash, session, username, password);
      out.0 == Redirect("/") && RequireAdmin(out.1).None?
  {
    var reg := Register(EmptyRegistry, hash, username, password).1;
    assert reg.users == [User(1, username, hash(password), true, true)];
  }

  /** A later account cannot log in until an admin approves it. */
  lemma LaterUserWaitsForApproval(reg: Registry, hash: string -> string, username: string, password: string,
                                  session: Session)
    requires reg.users != [] && FindByUsername(reg.users, username).None?
    ensures var reg' := Register(reg, hash, username, password).1;
      Login(reg', hash, session, username, password) == (Render(400, "login.html"), session)
    ensures var reg' := Register(reg, hash, username, password).1;
      var u := reg'.users[|reg.users|];
      !u.isAdmin && !u.isActive
  {
    var created := CreateUser(reg, hash, username, password, false, false);
    CreateThenAuthenticate(reg, hash, username, password, false, false);
  }

  /** Registering twice under one name leaves the registry as the first
      registration made it. */
  lemma RegisterTwice(reg: Registry, hash: string -> string, username: string, p1: string, p2: string)
    ensures var once := Register(reg, hash, username, p1).1;
      Register(once, hash, username, p2) == (Render(400, "register.html"), once)
  {
    var once := Register(reg, hash, username, p1).1;
    if FindByUsername(reg.users, username).None? {
      FindByUsernameAppend(reg.users, once.users[|reg.users|], username);
      assert once.users == reg.users + [once.users[|reg.users|]];
    }
  }

  /** A session without a user is redirected to the login page, so no
      admin route changes the registry. */
  lemma AnonymousChangesNothing(reg: Registry, id: int)
    ensures ApproveRoute(reg, EmptySession, id) == (Redirect("/login"), reg)
    ensures DeleteRoute(reg, EmptySession, id) == (Redirect("/login"), reg)
  {
  }
}
