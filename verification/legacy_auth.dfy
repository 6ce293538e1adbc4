/** The earlier revision of the account handlers (auth.py). Registration
    has no confirmation field, the profile page offers only the info and
    password forms, and a password change needs no current password. Login
    and the info form are the shared `Accounts` ones.
 */
module LegacyAuth {
  import opened Forms
  import opened Models
  import opened Accounts
  import PasswordPolicy
  import Auth

  /** Registration (auth.py:15-58): three required fields, the password
      rule, and no clash on username or email, checked in that order. */
  function Register(s: Store, session: Session, username: Field, email: Field,
                    password: Field, hasher: Hasher): (r: (Outcome, Store))
    ensures r.0 != Done ==> r.1 == s
    ensures r.0 == AlreadySignedIn <==> Authenticated(s, session)
    ensures r.0 == MissingFields <==>
              !Authenticated(s, session) && !(Filled(username) && Filled(email) && Filled(password))
    ensures r.0 == WeakPassword <==>
              && !Authenticated(s, session)
              && Filled(username) && Filled(email) && Filled(password)
              && !PasswordPolicy.Accepts(password.value)
    ensures r.0 == UserExists <==>
              && !Authenticated(s, session)
              && Filled(username) && Filled(email) && Filled(password)
              && PasswordPolicy.Accepts(password.value)
              && UsernameOrEmailTaken(s, username.value, email.value)
    ensures r.0 == Done <==>
              && !Authenticated(s, session)
              && Filled(username) && Filled(email) && Filled(password)
              && PasswordPolicy.Accepts(password.value)
              && !UsernameOrEmailTaken(s, username.value, email.value)
    ensures r.0 == Done && Valid(s) ==>
              InsertedUser(s, r.1, s.nextUserId, NewUser(username.value, email.value, hasher, password.value))
    ensures Valid(s) ==> Valid(r.1)
  {
    if Authenticated(s, session) then (AlreadySignedIn, s)
    else if !Filled(username) || !Filled(email) || !Filled(password) then (MissingFields, s)
    else if !PasswordPolicy.Accepts(password.value) then (WeakPassword, s)
    else if UsernameOrEmailTaken(s, username.value, email.value) then (UserExists, s)
    else (Done, InsertUser(s, NewUser(username.value, email.value, hasher, password.value)))
  }

  /** The "password" form (auth.py:139-149): any password that satisfies the
      rule replaces the hash; no current password is asked for. A missing
      field reaches the pattern as `None`, which raises. */
  function ChangePassword(s: Store, session: Session, password: Field, hasher: Hasher)
    : (r: (Outcome, Store))
    ensures r.0 != Done ==> r.1 == s
    ensures r.0 == LoginRequired <==> !Authenticated(s, session)
    ensures r.0 == ServerError <==> Authenticated(s, session) && password.None?
    ensures r.0 == WeakPassword <==>
              Authenticated(s, session) && password.Some? && !PasswordPolicy.Accepts(password.value)
    ensures r.0 == Done <==>
              Authenticated(s, session) && password.Some? && PasswordPolicy.Accepts(password.value)
    ensures r.0 == Done ==>
              var me := session.value;
              && OnlyUsersChanged(s, r.1)
              && r.1.users.Keys == s.users.Keys
              && r.1.users[me] == s.users[me].(passwordHash := hasher.hash(password.value))
              && (forall k :: k in s.users && k != me ==> r.1.users[k] == s.users[k])
    ensures Valid(s) ==> Valid(r.1)
  {
    if !Authenticated(s, session) then (LoginRequired, s)
    else if password.None? then (ServerError, s)
    else if !PasswordPolicy.Accepts(password.value) then (WeakPassword, s)
    else
      var me := session.value;
      var t := s.(users := s.users[me := s.users[me].(passwordHash := hasher.hash(password.value))]);
      SameIdentitiesKeepValidIfValid(s, t);
      (Done, t)
  }

  /** The two forms this revision's profile page handles. */
  datatype ProfileForm =
    | InfoForm(username: Field, email: Field)
    | PasswordForm(password: Field)
    | OtherForm

  /** The profile page (auth.py:105-152). */
  function Profile(s: Store, session: Session, form: ProfileForm, hasher: Hasher): (r: (Outcome, Store))
    ensures !Authenticated(s, session) ==> r == (LoginRequired, s)
    ensures Authenticated(s, session) && form.OtherForm? ==> r == (PageShown, s)
    ensures r.0 != Done ==> r.1 == s
    ensures r.0 == Done ==>
              && OnlyUsersChanged(s, r.1)
              && r.1.users.Keys == s.users.Keys
              && (forall k :: k in s.users && k != session.value ==> r.1.users[k] == s.users[k])
    ensures Valid(s) ==> Valid(r.1)
  {
    if !Authenticated(s, session) then (LoginRequired, s)
    else
      match form
      case InfoForm(u, e) => UpdateInfo(s, session, u, e)
      case PasswordForm(p) => ChangePassword(s, session, p, hasher)
      case OtherForm => (PageShown, s)
  }

  /** With the confirmation equal to the password, the current registration
      behaves exactly like this one: the confirmation is the only new check. */
  lemma RegisterAgreesWhenConfirmed(
    s: Store, session: Session, username: Field, email: Field, password: Field, hasher: Hasher)
    ensures Auth.Register(s, session, username, email, password, password, hasher)
            == Register(s, session, username, email, password, hasher)
  {
  }

  /** A confirmation that differs from the password is accepted here and
      refused by the current revision, which then changes nothing. */
  lemma ConfirmationOnlyCheckedLater(s: Store, username: string, email: string, password: string,
                                     confirm: string, hasher: Hasher)
    requires |username| > 0 && |email| > 0 && |password| > 0 && |confirm| > 0
    requires password != confirm
    requires PasswordPolicy.Accepts(password)
    requires !UsernameOrEmailTaken(s, username, email)
    ensures Register(s, None, Some(username), Some(email), Some(password), hasher).0 == Done
    ensures Auth.Register(s, None, Some(username), Some(email), Some(password), Some(confirm), hasher)
            == (PasswordMismatch, s)
  {
  }

  /** Once the current password verifies and the confirmation matches, the
      current password change behaves exactly like this one. */
  lemma ChangePasswordAgreesWhenVerified(
    s: Store, session: Session, current: string, password: Field, hasher: Hasher)
    requires Authenticated(s, session)
    requires CheckPassword(s.users[session.value], hasher, current)
    ensures Auth.ChangePassword(s, session, Some(current), password, password, hasher)
            == ChangePassword(s, session, password, hasher)
  {
  }

  /** This revision replaces the hash without the current password: whoever
      holds the session sets any password the rule accepts. */
  lemma NoCurrentPasswordNeeded(s: Store, me: UserId, password: string, hasher: Hasher)
    requires me in s.users
    requires PasswordPolicy.Accepts(password)
    requires !CheckPassword(s.users[me], hasher, "")
    ensures ChangePassword(s, Some(me), Some(password), hasher).0 == Done
    ensures Auth.ChangePassword(s, Some(me), Some(""), Some(password), Some(password), hasher).0
            == WrongPassword
  {
  }
}
