/** The user registry of app/services/user_service.py.

    The password hash (SHA-256 of the UTF-8 bytes, as hex) is the
    parameter `hash`; where a property needs it, injectivity is a
    premise. */
module Users {
  import opened Common

  /** A stored account. */
  datatype User = User(id: int, username: string, passwordHash: string, isAdmin: bool, isActive: bool)

  /** The user table in insertion order. */
  datatype Registry = Registry(users: seq<User>)

  const EmptyRegistry: Registry := Registry([])

  function UserKey(u: User): int { u.id }

  /** The key of the next account: one more than the largest stored key,
      as for the other tables. */
  function NextUserId(reg: Registry): (k: int)
    ensures forall i :: 0 <= i < |reg.users| ==> reg.users[i].id < k
    ensures reg.users == [] ==> k == 1
    ensures reg.users != [] ==> exists i :: 0 <= i < |reg.users| && reg.users[i].id == k - 1
  {
    NextKey(reg.users, UserKey)
  }

  /** Keys are positive and increase along the table. */
  predicate RegistryWellFormed(reg: Registry) {
    && (forall i :: 0 <= i < |reg.users| ==> 1 <= reg.users[i].id)
    && (forall i, j :: 0 <= i < j < |reg.users| ==> reg.users[i].id < reg.users[j].id)
  }

  ghost predicate Injective(hash: string -> string) {
    forall a: string, b: string :: hash(a) == hash(b) ==> a == b
  }

  /** `is_first_user`: the table is empty. */
  function IsFirstUser(reg: Registry): (b: bool)
    ensures b <==> reg.users == []
    ensures b ==> forall name :: FindByUsername(reg.users, name).None?
  {
    |reg.users| == 0
  }

  /** `get_user_by_username`: the first user with that name. */
  function FindByUsername(users: seq<User>, username: string): (r: Option<User>)
    ensures r.None? <==> forall i :: 0 <= i < |users| ==> users[i].username != username
    ensures r.Some? ==> r.value in users && r.value.username == username
    decreases |users|
  {
    if users == [] then None
    else if users[0].username == username then Some(users[0])
    else
      assert forall i :: 1 <= i < |users| ==> users[i] == users[1..][i - 1];
      FindByUsername(users[1..], username)
  }

  lemma {:induction false} FindByUsernameAppend(users: seq<User>, u: User, username: string)
    requires FindByUsername(users, username).None?
    ensures FindByUsername(users + [u], username) == (if u.username == username then Some(u) else None)
    decreases |users|
  {
    if users == [] {
    } else {
      assert (users + [u])[1..] == users[1..] + [u];
      assert forall i :: 1 <= i < |users| ==> users[i] == users[1..][i - 1];
      FindByUsernameAppend(users[1..], u, username);
    }
  }

  /** `create_user`: a new account with the hash of the password, never
      the password itself. */
  function CreateUser(reg: Registry, hash: string -> string, username: string, password: string,
                      isAdmin: bool, isActive: bool): (out: (User, Registry))
    ensures out.0 == User(NextUserId(reg), username, hash(password), isAdmin, isActive)
    ensures out.1.users == reg.users + [out.0]
  {
    var user := User(NextUserId(reg), username, hash(password), isAdmin, isActive);
    (user, Registry(reg.users + [user]))
  }

  /** `create_user` with its keyword defaults: neither admin nor active. */
  function CreateUserWithDefaults(reg: Registry, hash: string -> string, username: string, password: string)
    : (out: (User, Registry))
    ensures !out.0.isAdmin && !out.0.isActive
    ensures out.0.passwordHash == hash(password) && out.0.username == username
  {
    CreateUser(reg, hash, username, password, false, false)
  }

  lemma CreateUserWellFormed(reg: Registry, hash: string -> string, username: string, password: string,
                             isAdmin: bool, isActive: bool)
    requires RegistryWellFormed(reg)
    ensures RegistryWellFormed(CreateUser(reg, hash, username, password, isAdmin, isActive).1)
    ensures !IsFirstUser(CreateUser(reg, hash, username, password, isAdmin, isActive).1)
  {
  }

  /** `authenticate_user`: the user named `username`, only when the hash
      of the password matches and the account is active. */
  function Authenticate(reg: Registry, hash: string -> string, username: string, password: string)
    : (r: Option<User>)
    ensures var found := FindByUsername(reg.users, username);
      r.Some? <==> found.Some? && found.value.passwordHash == hash(password) && found.value.isActive
    ensures r.Some? ==> r == FindByUsername(reg.users, username)
  {
    var user := FindByUsername(reg.users, username);
    if user.None? then None
    else if user.value.passwordHash != hash(password) then None
    else if !user.value.isActive then None
    else user
  }

  /** Right after an account is created under a fresh name, logging in
      with the same password succeeds exactly when it was created active. */
  lemma CreateThenAuthenticate(reg: Registry, hash: string -> string, username: string, password: string,
                               isAdmin: bool, isActive: bool)
    requires FindByUsername(reg.users, username).None?
    ensures var out := CreateUser(reg, hash, username, password, isAdmin, isActive);
      Authenticate(out.1, hash, username, password).Some? <==> isActive
    ensures var out := CreateUser(reg, hash, username, password, isAdmin, isActive);
      isActive ==> Authenticate(out.1, hash, username, password) == Some(out.0)
  {
    var out := CreateUser(reg, hash, username, password, isAdmin, isActive);
    FindByUsernameAppend(reg.users, out.0, username);
  }

  /** With an injective hash, any other password is refused. */
  lemma WrongPasswordRefused(reg: Registry, hash: string -> string, username: string, password: string,
                             other: string, isAdmin: bool, isActive: bool)
    requires Injective(hash) && other != password
    requires FindByUsername(reg.users, username).None?
    ensures var out := CreateUser(reg, hash, username, password, isAdmin, isActive);
      Authenticate(out.1, hash, username, other).None?
  {
    var out := CreateUser(reg, hash, username, password, isAdmin, isActive);
    FindByUsernameAppend(reg.users, out.0, username);
    assert hash(other) != hash(password);
  }

  /** `get_all_users`: the table in stored order. */
  function AllUsers(reg: Registry): (r: seq<User>)
    ensures forall x :: x in r <==> x in reg.users
    ensures |r| == |reg.users|
  {
    reg.users
  }

  /** `approve_user`: the account with key `id` becomes active; nothing
      else changes, and an unknown key changes nothing. */
  function ApproveUser(reg: Registry, id: int): (r: Registry)
    ensures (forall i :: 0 <= i < |reg.users| ==> reg.users[i].id != id) ==> r == reg
    ensures |r.users| == |reg.users|
    ensures forall i :: 0 <= i < |reg.users| ==> r.users[i].id == reg.users[i].id
    ensures forall i :: 0 <= i < |reg.users| && reg.users[i].id != id ==> r.users[i] == reg.users[i]
    ensures forall i :: 0 <= i < |reg.users| && reg.users[i].id == id ==>
      r.users[i] == reg.users[i] || r.users[i] == reg.users[i].(isActive := true)
    ensures (exists i :: 0 <= i < |reg.users| && reg.users[i].id == id) ==>
      exists i :: 0 <= i < |reg.users| && reg.users[i].id == id && r.users[i] == reg.users[i].(isActive := true)
  {
    var k := FirstIndex(reg.users, UserKey, id);
    if k < |reg.users| then
      reg.(users := reg.users[k := reg.users[k].(isActive := true)])
    else reg
  }

  /** `delete_user`: the account with key `id` is removed; nothing else
      changes, and an unknown key changes nothing. */
  function DeleteUser(reg: Registry, id: int): (r: Registry)
    ensures (forall i :: 0 <= i < |reg.users| ==> reg.users[i].id != id) ==> r == reg
    ensures forall x :: x in r.users ==> x in reg.users
    ensures forall x :: x in reg.users && x.id != id ==> x in r.users
    ensures (exists i :: 0 <= i < |reg.users| && reg.users[i].id == id) ==> |r.users| == |reg.users| - 1
  {
    var k := FirstIndex(reg.users, UserKey, id);
    if k < |reg.users| then
      var rest := reg.users[..k] + reg.users[k + 1..];
      assert forall x :: x in reg.users && x.id != id ==> x in rest by {
        forall x | x in reg.users && x.id != id
          ensures x in rest
        {
          var i :| 0 <= i < |reg.users| && reg.users[i] == x;
          if i < k { assert rest[i] == x; } else { assert rest[i - 1] == x; }
        }
      }
      reg.(users := rest)
    else reg
  }

  /** Removing the element at `k` shifts the later ones down by one. */
  lemma RemoveAt(s: seq<User>, k: nat)
    requires k < |s|
    ensures var r := s[..k] + s[k + 1..];
      |r| == |s| - 1 && forall i :: 0 <= i < |r| ==> r[i] == s[if i < k then i else i + 1]
  {
  }

  /** With distinct keys, a deleted account is gone. */
  lemma DeleteUserRemoves(reg: Registry, id: int)
    requires RegistryWellFormed(reg)
    ensures forall x :: x in DeleteUser(reg, id).users ==> x.id != id
  {
    var k := FirstIndex(reg.users, UserKey, id);
    if k < |reg.users| {
      var rest := DeleteUser(reg, id).users;
      RemoveAt(reg.users, k);
      forall i | 0 <= i < |rest|
        ensures rest[i].id != id
      {
        if i < k { assert rest[i] == reg.users[i]; } else { assert rest[i] == reg.users[i + 1]; }
      }
    }
  }

  /** Deleting keeps the registry well formed. */
  lemma DeleteUserWellFormed(reg: Registry, id: int)
    requires RegistryWellFormed(reg)
    ensures RegistryWellFormed(DeleteUser(reg, id))
  {
    var k := FirstIndex(reg.users, UserKey, id);
    if k < |reg.users| {
      RemoveAtWellFormed(reg, k);
    }
  }

  lemma RemoveAtWellFormed(reg: Registry, k: nat)
    requires RegistryWellFormed(reg) && k < |reg.users|
    ensures RegistryWellFormed(reg.(users := reg.users[..k] + reg.users[k + 1..]))
  {
    var rest := reg.users[..k] + reg.users[k + 1..];
    RemoveAt(reg.users, k);
    forall i, j | 0 <= i < j < |rest|
      ensures rest[i].id < rest[j].id
    {
      var i' := if i < k then i else i + 1;
      var j' := if j < k then j else j + 1;
      assert rest[i] == reg.users[i'] && rest[j] == reg.users[j'];
    }
  }

  /** Approving the account of a pending user lets them log in with the
      right password. */
  lemma ApproveThenAuthenticate(reg: Registry, hash: string -> string, username: string, password: string)
    requires RegistryWellFormed(reg)
    requires FindByUsername(reg.users, username).Some?
    requires FindByUsername(reg.users, username).value.passwordHash == hash(password)
    ensures var u := FindByUsername(reg.users, username).value;
      Authenticate(ApproveUser(reg, u.id), hash, username, password) == Some(u.(isActive := true))
  {
    var u := FindByUsername(reg.users, username).value;
    var j :| 0 <= j < |reg.users| && reg.users[j] == u;
    var k := FirstIndex(reg.users, UserKey, u.id);
    assert k == j;
    var after := ApproveUser(reg, u.id).users;
    FindByUsernameSameNames(reg.users, after, username);
  }

  /** Lookup by name only depends on the names along the table. */
  lemma {:induction false} FindByUsernameSameNames(a: seq<User>, b: seq<User>, username: string)
    requires |a| == |b|
    requires forall i :: 0 <= i < |a| ==> a[i].username == b[i].username
    requires forall i :: 0 <= i < |a| ==> b[i] == a[i] || b[i] == a[i].(isActive := true)
    ensures FindByUsername(b, username).None? <==> FindByUsername(a, username).None?
    ensures FindByUsername(a, username).Some? ==>
      exists i :: 0 <= i < |a| && FindByUsername(a, username) == Some(a[i]) && FindByUsername(b, username) == Some(b[i])
    decreases |a|
  {
    if a != [] && a[0].username != username {
      assert forall i :: 1 <= i < |a| ==> a[i] == a[1..][i - 1] && b[i] == b[1..][i - 1];
      FindByUsernameSameNames(a[1..], b[1..], username);
      if FindByUsername(a, username).Some? {
        var i :| 0 <= i < |a[1..]| && FindByUsername(a[1..], username) == Some(a[1..][i])
          && FindByUsername(b[1..], username) == Some(b[1..][i]);
        assert a[i + 1] == a[1..][i] && b[i + 1] == b[1..][i];
      }
    }
  }
}
