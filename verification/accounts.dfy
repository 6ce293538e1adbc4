/** What both revisions of the account handlers share: the outcomes a
    request can end in, the signed-in check, the duplicate queries, login
    and the username/email update (app/auth.py:86-99 and 130-151 have the
    same logic as auth.py:72-85 and 116-137; only messages and layout differ).

    A handler is a pure transition from the store, the session's user and
    the posted fields to an outcome and the store after commit.
 */
module Accounts {
  import opened Forms
  import opened Models

  /** The user the session is signed in as, if any. */
  type Session = Option<UserId>

  /** How a request ends. Only `Done` and `SignedIn` are successes; every
      other outcome is a flashed error or a plain page. */
  datatype Outcome =
    | Done
    | SignedIn(id: UserId)
    | AlreadySignedIn
    | LoginRequired
    | MissingFields
    | PasswordMismatch
    | WeakPassword
    | UserExists
    | Taken
    | WrongPassword
    | NoFilePart
    | NoSelectedFile
    | FileTypeNotAllowed
    | InvalidCredentials
    | ServerError
    | PageShown

  /** `current_user.is_authenticated`: the session names an existing user. */
  predicate Authenticated(s: Store, session: Session) {
    session.Some? && session.value in s.users
  }

  /** The registration query: some user has this username or this email. */
  predicate UsernameOrEmailTaken(s: Store, username: string, email: string) {
    exists id :: id in s.users && (s.users[id].username == username || s.users[id].email == email)
  }

  /** The profile query: a user other than `me` has this username or email. */
  predicate TakenByOther(s: Store, me: UserId, username: string, email: string) {
    exists id :: id in s.users && id != me && (s.users[id].username == username || s.users[id].email == email)
  }

  /** Only the users table changed. */
  ghost predicate OnlyUsersChanged(s: Store, t: Store) {
    t == s.(users := t.users)
  }

  /** `t` is `s` with one user `u` inserted under the fresh key `id`. */
  ghost predicate InsertedUser(s: Store, t: Store, id: UserId, u: User) {
    && id !in s.users
    && t.users.Keys == s.users.Keys + {id}
    && t.users[id] == u
    && (forall k :: k in s.users ==> t.users[k] == s.users[k])
    && t.(users := s.users, nextUserId := s.nextUserId) == s
  }

  /** `db.session.add(user)` with the next key of the users table. On a
      valid store that key is fresh, so exactly one user is added. */
  function InsertUser(s: Store, u: User): (t: Store)
    ensures Valid(s) ==> InsertedUser(s, t, s.nextUserId, u) && |t.users| == |s.users| + 1
    ensures Valid(s) && !UsernameOrEmailTaken(s, u.username, u.email) ==> Valid(t)
  {
    var t := s.(users := s.users[s.nextUserId := u], nextUserId := s.nextUserId + 1);
    assert t.users.Keys == s.users.Keys + {s.nextUserId};
    InsertKeepsValid(s, u, t);
    t
  }

  lemma InsertKeepsValid(s: Store, u: User, t: Store)
    requires t == s.(users := s.users[s.nextUserId := u], nextUserId := s.nextUserId + 1)
    ensures Valid(s) && !UsernameOrEmailTaken(s, u.username, u.email) ==> Valid(t)
  {
    if !Valid(s) || UsernameOrEmailTaken(s, u.username, u.email) {
      return;
    }
    var n := s.nextUserId;
    forall a, b | a in t.users && b in t.users && a != b
      ensures t.users[a].username != t.users[b].username
      ensures t.users[a].email != t.users[b].email
    {
      if a == n {
        assert b in s.users;
      } else if b == n {
        assert a in s.users;
      }
    }
    forall k | k in t.cartItems
      ensures CartItemValid(t.cartItems[k], t.users, t.products)
    {
      assert CartItemValid(s.cartItems[k], s.users, s.products);
    }
    forall k | k in t.orders
      ensures OrderValid(t.orders[k], t.users)
    {
      assert OrderValid(s.orders[k], s.users);
    }
  }

  /** A change that keeps every key, username and email keeps the store valid. */
  lemma SameIdentitiesKeepValid(s: Store, t: Store)
    requires Valid(s)
    requires OnlyUsersChanged(s, t)
    requires t.users.Keys == s.users.Keys
    requires forall k :: k in s.users ==>
               t.users[k].username == s.users[k].username && t.users[k].email == s.users[k].email
    ensures Valid(t)
  {
    forall k | k in t.cartItems
      ensures CartItemValid(t.cartItems[k], t.users, t.products)
    {
      assert CartItemValid(s.cartItems[k], s.users, s.products);
    }
    forall k | k in t.orders
      ensures OrderValid(t.orders[k], t.users)
    {
      assert OrderValid(s.orders[k], s.users);
    }
  }

  /** The same for any store: validity, when it held, is kept. */
  lemma SameIdentitiesKeepValidIfValid(s: Store, t: Store)
    requires OnlyUsersChanged(s, t)
    requires t.users.Keys == s.users.Keys
    requires forall k :: k in s.users ==>
               t.users[k].username == s.users[k].username && t.users[k].email == s.users[k].email
    ensures Valid(s) ==> Valid(t)
  {
    if Valid(s) {
      SameIdentitiesKeepValid(s, t);
    }
  }

  /** Sign-in: `User.query.filter_by(username=...).first()` then
      `check_password`. The store never changes; the session does on success. */
  function Login(s: Store, session: Session, username: Field, password: Field, hasher: Hasher)
    : (r: (Outcome, Session))
    requires UniqueUsernames(s.users)
    ensures r.0.SignedIn? || r.0.AlreadySignedIn? || r.0.InvalidCredentials? || r.0.ServerError?
    ensures r.0.AlreadySignedIn? <==> Authenticated(s, session)
    ensures r.0.SignedIn? <==>
              && !Authenticated(s, session)
              && username.Some? && password.Some?
              && exists id :: id in s.users && s.users[id].username == username.value
                              && CheckPassword(s.users[id], hasher, password.value)
    ensures r.0.SignedIn? ==>
              && r.0.id in s.users && s.users[r.0.id].username == username.value
              && r.1 == Some(r.0.id)
    ensures !r.0.SignedIn? ==> r.1 == session
  {
    if Authenticated(s, session) then (AlreadySignedIn, session)
    else if username.None? || !exists id :: id in s.users && s.users[id].username == username.value then
      (InvalidCredentials, session)
    else
      var id :| id in s.users && s.users[id].username == username.value;
      if password.None? then (ServerError, session)
      else if CheckPassword(s.users[id], hasher, password.value) then (SignedIn(id), Some(id))
      else (InvalidCredentials, session)
  }

  /** The "info" form: new username and email for the signed-in user. */
  function UpdateInfo(s: Store, session: Session, username: Field, email: Field): (r: (Outcome, Store))
    ensures r.0 != Done ==> r.1 == s
    ensures r.0 == LoginRequired <==> !Authenticated(s, session)
    ensures r.0 == MissingFields <==> Authenticated(s, session) && !(Filled(username) && Filled(email))
    ensures r.0 == Taken <==>
              && Authenticated(s, session) && Filled(username) && Filled(email)
              && TakenByOther(s, session.value, username.value, email.value)
    ensures r.0 == Done <==>
              && Authenticated(s, session) && Filled(username) && Filled(email)
              && !TakenByOther(s, session.value, username.value, email.value)
    ensures r.0 == Done ==>
              var me := session.value;
              && OnlyUsersChanged(s, r.1)
              && r.1.users.Keys == s.users.Keys
              && r.1.users[me] == s.users[me].(username := username.value, email := email.value)
              && (forall k :: k in s.users && k != me ==> r.1.users[k] == s.users[k])
    ensures Valid(s) ==> Valid(r.1)
  {
    if !Authenticated(s, session) then (LoginRequired, s)
    else if !Filled(username) || !Filled(email) then (MissingFields, s)
    else
      var me := session.value;
      if TakenByOther(s, me, username.value, email.value) then (Taken, s)
      else
        var u := s.users[me].(username := username.value, email := email.value);
        (Done, s.(users := s.users[me := u]))
  }

  /** Submitting one's own current username and email is accepted. */
  lemma KeepingOwnInfoAccepted(s: Store, me: UserId)
    requires Valid(s)
    requires me in s.users
    requires |s.users[me].username| > 0 && |s.users[me].email| > 0
    ensures var u := s.users[me];
            UpdateInfo(s, Some(me), Some(u.username), Some(u.email)) == (Done, s)
  {
    var u := s.users[me];
    assert s.users[me := u] == s.users;
  }
}
