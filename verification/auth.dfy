/** The account handlers of the current revision (app/auth.py): register,
    the four profile forms (info, address, password, picture) and account
    deletion, plus the upload-name check `allowed_file`.

    Every handler returns its outcome together with the store after commit;
    a handler that flashes an error commits nothing.
 */
module Auth {
  import opened Forms
  import opened Text
  import opened Models
  import opened Accounts
  import PasswordPolicy

  /** The application settings the handlers read: the allowed image
      extensions and the name of the shared default picture. */
  datatype Config = Config(imageExtensions: set<string>, defaultPicture: string)

  /** `filename.rsplit(".", 1)[1].lower()`: the lower-cased text after the last dot. */
  function Extension(filename: string): string
    requires '.' in filename
  {
    Lower(filename[LastIndexOf(filename, '.') + 1..])
  }

  /** `allowed_file`. */
  predicate AllowedFile(filename: string, extensions: set<string>) {
    '.' in filename && Extension(filename) in extensions
  }

  /** `i` is the position of the last dot of `filename`. */
  predicate LastDotAt(filename: string, i: int) {
    0 <= i < |filename| && filename[i] == '.' && forall j :: i < j < |filename| ==> filename[j] != '.'
  }

  lemma LastDotUnique(filename: string, i: int)
    requires LastDotAt(filename, i)
    ensures LastIndexOf(filename, '.') == i
  {
    var l := LastIndexOf(filename, '.');
    assert filename[i] == '.';
    assert l >= i;
    assert l != -1 && filename[l] == '.';
  }

  /** A file is allowed exactly when it has a dot and the lower-cased text
      after its last dot is a configured extension. */
  lemma AllowedFileIff(filename: string, extensions: set<string>)
    ensures AllowedFile(filename, extensions) <==>
              exists i :: LastDotAt(filename, i) && Lower(filename[i + 1..]) in extensions
  {
    if AllowedFile(filename, extensions) {
      var l := LastIndexOf(filename, '.');
      assert LastDotAt(filename, l);
      assert Lower(filename[l + 1..]) in extensions;
    }
    if exists i :: LastDotAt(filename, i) && Lower(filename[i + 1..]) in extensions {
      var i :| LastDotAt(filename, i) && Lower(filename[i + 1..]) in extensions;
      LastDotUnique(filename, i);
    }
  }

  /** The stored name of an uploaded picture: `user_<id>.<ext>`. */
  function PictureFileName(id: UserId, ext: string): string {
    "user_" + Decimal(id) + "." + ext
  }

  lemma DotAfterDigits(d: string, e: string)
    requires forall i :: 0 <= i < |d| ==> IsDigit(d[i])
    ensures FirstIndexOf(d + "." + e, '.') == |d|
  {
    var x := d + "." + e;
    assert x[|d|] == '.';
    assert forall k :: 0 <= k < |d| ==> x[k] == d[k] && x[k] != '.';
  }

  /** Two users never receive the same uploaded-picture name. */
  lemma PictureNamesDistinct(a: UserId, b: UserId, extA: string, extB: string)
    requires a != b
    ensures PictureFileName(a, extA) != PictureFileName(b, extB)
  {
    var da, db := Decimal(a), Decimal(b);
    if PictureFileName(a, extA) == PictureFileName(b, extB) {
      var x := PictureFileName(a, extA)[5..];
      assert x == da + "." + extA;
      assert x == PictureFileName(b, extB)[5..] == db + "." + extB;
      DotAfterDigits(da, extA);
      DotAfterDigits(db, extB);
      assert da == x[..|da|] == db;
      DecimalInjective(a, b);
    }
  }

  /** Registration (app/auth.py:25-72): four required fields, matching
      confirmation, the password rule, and no clash on username or email,
      checked in that order. */
  function Register(s: Store, session: Session, username: Field, email: Field,
                    password: Field, confirm: Field, hasher: Hasher): (r: (Outcome, Store))
    ensures r.0 != Done ==> r.1 == s
    ensures r.0 == AlreadySignedIn <==> Authenticated(s, session)
    ensures r.0 == MissingFields <==>
              !Authenticated(s, session)
              && !(Filled(username) && Filled(email) && Filled(password) && Filled(confirm))
    ensures r.0 == PasswordMismatch <==>
              && !Authenticated(s, session)
              && Filled(username) && Filled(email) && Filled(password) && Filled(confirm)
              && password.value != confirm.value
    ensures r.0 == WeakPassword <==>
              && !Authenticated(s, session)
              && Filled(username) && Filled(email) && Filled(password) && Filled(confirm)
              && password.value == confirm.value
              && !PasswordPolicy.Accepts(password.value)
    ensures r.0 == UserExists <==>
              && !Authenticated(s, session)
              && Filled(username) && Filled(email) && Filled(password) && Filled(confirm)
              && password.value == confirm.value
              && PasswordPolicy.Accepts(password.value)
              && UsernameOrEmailTaken(s, username.value, email.value)
    ensures r.0 == Done <==>
              && !Authenticated(s, session)
              && Filled(username) && Filled(email) && Filled(password) && Filled(confirm)
              && password.value == confirm.value
              && PasswordPolicy.Accepts(password.value)
              && !UsernameOrEmailTaken(s, username.value, email.value)
    ensures r.0 == Done && Valid(s) ==>
              InsertedUser(s, r.1, s.nextUserId, NewUser(username.value, email.value, hasher, password.value))
    ensures Valid(s) ==> Valid(r.1)
  {
    if Authenticated(s, session) then (AlreadySignedIn, s)
    else if !Filled(username) || !Filled(email) || !Filled(password) || !Filled(confirm) then (MissingFields, s)
    else if password.value != confirm.value then (PasswordMismatch, s)
    else if !PasswordPolicy.Accepts(password.value) then (WeakPassword, s)
    else if UsernameOrEmailTaken(s, username.value, email.value) then (UserExists, s)
    else (Done, InsertUser(s, NewUser(username.value, email.value, hasher, password.value)))
  }

  /** A successful registration creates a plain user with the default picture. */
  lemma RegisteredUserHasDefaults(s: Store, username: string, email: string, password: string, hasher: Hasher)
    requires Valid(s)
    requires |username| > 0 && |email| > 0 && PasswordPolicy.Accepts(password)
    requires !UsernameOrEmailTaken(s, username, email)
    ensures var r := Register(s, None, Some(username), Some(email), Some(password), Some(password), hasher);
            && r.0 == Done
            && s.nextUserId in r.1.users
            && !r.1.users[s.nextUserId].isAdmin
            && r.1.users[s.nextUserId].profilePicture == Some(DefaultProfilePicture)
            && r.1.users[s.nextUserId].username == username
  {
  }

  /** The address line `street|postal|city|country`. */
  function AddressLine(street: string, postalCode: string, city: string, country: string): string {
    street + "|" + postalCode + "|" + city + "|" + country
  }

  /** The stored address splits back into its four parts when none holds `|`. */
  lemma AddressRoundTrip(street: string, postalCode: string, city: string, country: string)
    requires '|' !in street && '|' !in postalCode && '|' !in city && '|' !in country
    ensures Split(AddressLine(street, postalCode, city, country), '|') == [street, postalCode, city, country]
  {
    var parts := [street, postalCode, city, country];
    assert Join(parts[3..], '|') == country;
    assert Join(parts[2..], '|') == city + "|" + country;
    assert Join(parts[1..], '|') == postalCode + "|" + city + "|" + country;
    assert Join(parts, '|') == AddressLine(street, postalCode, city, country);
    SplitJoin(parts, '|');
  }

  /** The "address" form (app/auth.py:153-169): each field defaults to the
      empty text and is stripped; all four must remain non-empty. */
  function UpdateAddress(s: Store, session: Session, street: Field, postalCode: Field,
                         city: Field, country: Field): (r: (Outcome, Store))
    ensures r.0 != Done ==> r.1 == s
    ensures r.0 == LoginRequired <==> !Authenticated(s, session)
    ensures r.0 == MissingFields <==>
              && Authenticated(s, session)
              && (|| AllSpace(Python, street.GetOr("")) || AllSpace(Python, postalCode.GetOr(""))
                  || AllSpace(Python, city.GetOr("")) || AllSpace(Python, country.GetOr("")))
    ensures r.0 == Done ==>
              var me := session.value;
              && OnlyUsersChanged(s, r.1)
              && r.1.users.Keys == s.users.Keys
              && r.1.users[me] == s.users[me].(address := Some(AddressLine(
                   Strip(Python, street.GetOr("")), Strip(Python, postalCode.GetOr("")),
                   Strip(Python, city.GetOr("")), Strip(Python, country.GetOr("")))))
              && (forall k :: k in s.users && k != me ==> r.1.users[k] == s.users[k])
    ensures r.0 == LoginRequired || r.0 == MissingFields || r.0 == Done
    ensures Valid(s) ==> Valid(r.1)
  {
    if !Authenticated(s, session) then (LoginRequired, s)
    else
      var st, pc, ci, co := Strip(Python, street.GetOr("")), Strip(Python, postalCode.GetOr("")),
                            Strip(Python, city.GetOr("")), Strip(Python, country.GetOr(""));
      if st == [] || pc == [] || ci == [] || co == [] then (MissingFields, s)
      else
        var me := session.value;
        var t := s.(users := s.users[me := s.users[me].(address := Some(AddressLine(st, pc, ci, co)))]);
        SameIdentitiesKeepValidIfValid(s, t);
        (Done, t)
  }

  /** Python's `strip()` also removes the information separators, so a
      field holding only U+001C is as empty as a blank one. */
  lemma SeparatorOnlyFieldRefused(s: Store, me: UserId, n: int, postalCode: string,
                                  city: string, country: string)
    requires me in s.users
    requires 0x1C <= n <= 0x1F
    ensures UpdateAddress(s, Some(me), Some([n as char]), Some(postalCode), Some(city), Some(country))
            == (MissingFields, s)
  {
    StripDialectsDiffer(n);
  }

  /** The "password" form (app/auth.py:171-196): the current password must
      verify, the new one must equal its confirmation and satisfy the rule.
      A missing field reaches the hash check or the pattern as `None`, which
      raises; nothing is committed then. */
  function ChangePassword(s: Store, session: Session, current: Field, newPassword: Field,
                          confirm: Field, hasher: Hasher): (r: (Outcome, Store))
    ensures r.0 != Done ==> r.1 == s
    ensures r.0 == LoginRequired <==> !Authenticated(s, session)
    ensures r.0 == WrongPassword <==>
              && Authenticated(s, session) && current.Some?
              && !CheckPassword(s.users[session.value], hasher, current.value)
    ensures r.0 == PasswordMismatch <==>
              && Authenticated(s, session) && current.Some?
              && CheckPassword(s.users[session.value], hasher, current.value)
              && newPassword != confirm
    ensures r.0 == WeakPassword <==>
              && Authenticated(s, session) && current.Some?
              && CheckPassword(s.users[session.value], hasher, current.value)
              && newPassword == confirm && newPassword.Some?
              && !PasswordPolicy.Accepts(newPassword.value)
    ensures r.0 == Done <==>
              && Authenticated(s, session) && current.Some?
              && CheckPassword(s.users[session.value], hasher, current.value)
              && newPassword == confirm && newPassword.Some?
              && PasswordPolicy.Accepts(newPassword.value)
    ensures r.0 == ServerError <==>
              && Authenticated(s, session)
              && (|| current.None?
                  || (CheckPassword(s.users[session.value], hasher, current.value)
                      && newPassword == confirm && newPassword.None?))
    ensures r.0 == Done ==>
              var me := session.value;
              && OnlyUsersChanged(s, r.1)
              && r.1.users.Keys == s.users.Keys
              && r.1.users[me] == s.users[me].(passwordHash := hasher.hash(newPassword.value))
              && (forall k :: k in s.users && k != me ==> r.1.users[k] == s.users[k])
    ensures Valid(s) ==> Valid(r.1)
  {
    if !Authenticated(s, session) then (LoginRequired, s)
    else
      var me := session.value;
      if current.None? then (ServerError, s)
      else if !CheckPassword(s.users[me], hasher, current.value) then (WrongPassword, s)
      else if newPassword != confirm then (PasswordMismatch, s)
      else if newPassword.None? then (ServerError, s)
      else if !PasswordPolicy.Accepts(newPassword.value) then (WeakPassword, s)
      else
        var t := s.(users := s.users[me := s.users[me].(passwordHash := hasher.hash(newPassword.value))]);
        SameIdentitiesKeepValidIfValid(s, t);
        (Done, t)
  }

  /** The "picture" form (app/auth.py:198-238): a file part, a non-empty
      name and an allowed extension are required; the old picture file is
      removed unless it is the shared default, and the upload is stored as
      `user_<id>.<ext>`. A NULL picture differs from the default and reaches
      `os.path.join`, which raises. */
  function ReplacePicture(s: Store, session: Session, file: Option<string>, cfg: Config)
    : (r: (Outcome, Store))
    ensures r.0 != Done ==> r.1 == s
    ensures r.0 == LoginRequired <==> !Authenticated(s, session)
    ensures r.0 == NoFilePart <==> Authenticated(s, session) && file.None?
    ensures r.0 == NoSelectedFile <==> Authenticated(s, session) && file == Some("")
    ensures r.0 == FileTypeNotAllowed <==>
              && Authenticated(s, session) && file.Some? && file.value != ""
              && !AllowedFile(file.value, cfg.imageExtensions)
    ensures r.0 == ServerError <==>
              && Authenticated(s, session) && file.Some? && AllowedFile(file.value, cfg.imageExtensions)
              && s.users[session.value].profilePicture.None?
    ensures r.0 == Done <==>
              && Authenticated(s, session) && file.Some? && AllowedFile(file.value, cfg.imageExtensions)
              && s.users[session.value].profilePicture.Some?
    ensures r.0 == Done ==>
              var me := session.value;
              var previous := s.users[me].profilePicture.value;
              var name := PictureFileName(me, Extension(file.value));
              && r.1 == s.(users := r.1.users, pictures := r.1.pictures)
              && r.1.users.Keys == s.users.Keys
              && r.1.users[me] == s.users[me].(profilePicture := Some(name))
              && (forall k :: k in s.users && k != me ==> r.1.users[k] == s.users[k])
              && name in r.1.pictures
              && r.1.pictures <= s.pictures + {name}
              && (forall f :: f in s.pictures && f != previous ==> f in r.1.pictures)
              && (cfg.defaultPicture in s.pictures ==> cfg.defaultPicture in r.1.pictures)
              && (previous != cfg.defaultPicture && previous != name ==> previous !in r.1.pictures)
    ensures Valid(s) ==> Valid(r.1)
  {
    if !Authenticated(s, session) then (LoginRequired, s)
    else if file.None? then (NoFilePart, s)
    else if file.value == "" then (NoSelectedFile, s)
    else if !AllowedFile(file.value, cfg.imageExtensions) then (FileTypeNotAllowed, s)
    else if s.users[session.value].profilePicture.None? then (ServerError, s)
    else
      var me := session.value;
      var previous := s.users[me].profilePicture.value;
      var kept := if previous != cfg.defaultPicture then s.pictures - {previous} else s.pictures;
      var name := PictureFileName(me, Extension(file.value));
      var t := s.(users := s.users[me := s.users[me].(profilePicture := Some(name))], pictures := kept + {name});
      ValidIgnoresPictures(s, t.(pictures := s.pictures), t.pictures);
      SameIdentitiesKeepValidIfValid(s, t.(pictures := s.pictures));
      (Done, t)
  }

  /** The picture files play no part in the schema's constraints. */
  lemma ValidIgnoresPictures(s: Store, t: Store, pictures: set<string>)
    ensures Valid(t) <==> Valid(t.(pictures := pictures))
  {
  }

  /** The profile forms, dispatched on `form_type`. */
  datatype ProfileForm =
    | InfoForm(username: Field, email: Field)
    | AddressForm(street: Field, postalCode: Field, city: Field, country: Field)
    | PasswordForm(current: Field, newPassword: Field, confirm: Field)
    | PictureForm(file: Option<string>)
    | OtherForm

  /** The profile page (app/auth.py:119-251). Whatever form is posted, only
      the signed-in user's own record and the picture files can change. */
  function Profile(s: Store, session: Session, form: ProfileForm, hasher: Hasher, cfg: Config)
    : (r: (Outcome, Store))
    ensures !Authenticated(s, session) ==> r == (LoginRequired, s)
    ensures Authenticated(s, session) && form.OtherForm? ==> r == (PageShown, s)
    ensures r.0 != Done ==> r.1 == s
    ensures r.0 == Done ==>
              && r.1 == s.(users := r.1.users, pictures := r.1.pictures)
              && r.1.users.Keys == s.users.Keys
              && (forall k :: k in s.users && k != session.value ==> r.1.users[k] == s.users[k])
    ensures !form.PictureForm? ==> r.1.pictures == s.pictures
    ensures Valid(s) ==> Valid(r.1)
  {
    if !Authenticated(s, session) then (LoginRequired, s)
    else
      match form
      case InfoForm(u, e) => UpdateInfo(s, session, u, e)
      case AddressForm(st, pc, ci, co) => UpdateAddress(s, session, st, pc, ci, co)
      case PasswordForm(cur, np, cf) => ChangePassword(s, session, cur, np, cf, hasher)
      case PictureForm(f) => ReplacePicture(s, session, f, cfg)
      case OtherForm => (PageShown, s)
  }

  /** `t` is `s` with user `me` removed together with their cart items,
      their orders and the items of those orders. */
  ghost predicate Cascaded(s: Store, t: Store, me: UserId) {
    && t.users.Keys == s.users.Keys - {me}
    && (forall k :: k in t.users ==> t.users[k] == s.users[k])
    && (forall k :: k in t.cartItems <==> k in s.cartItems && s.cartItems[k].userId != me)
    && (forall k :: k in t.cartItems ==> t.cartItems[k] == s.cartItems[k])
    && (forall k :: k in t.orders <==> k in s.orders && s.orders[k].userId != me)
    && (forall k :: k in t.orders ==> t.orders[k] == s.orders[k])
    && (forall k :: k in t.orderItems <==> k in s.orderItems && !OwnedOrder(s, me, s.orderItems[k].orderId))
    && (forall k :: k in t.orderItems ==> t.orderItems[k] == s.orderItems[k])
    && t.products == s.products
    && t.nextUserId == s.nextUserId
  }

  /** Order `o` exists and belongs to `me`. */
  predicate OwnedOrder(s: Store, me: UserId, o: OrderId) {
    o in s.orders && s.orders[o].userId == me
  }

  /** Account deletion (app/auth.py:254-294): the picture file unless it is
      the default, then cart items, orders with their items, and the user.
      A NULL picture reaches `os.path.join`, which raises before anything
      is deleted. */
  function DeleteAccount(s: Store, session: Session, cfg: Config): (r: (Outcome, Store))
    ensures r.0 == LoginRequired || r.0 == ServerError || r.0 == Done
    ensures r.0 == LoginRequired <==> !Authenticated(s, session)
    ensures r.0 == Done <==> Authenticated(s, session) && s.users[session.value].profilePicture.Some?
    ensures r.0 != Done ==> r.1 == s
    ensures r.0 == Done ==>
              var me := session.value;
              var pic := s.users[me].profilePicture.value;
              && Cascaded(s, r.1, me)
              && me !in r.1.users
              && (forall k :: k in r.1.cartItems ==> r.1.cartItems[k].userId != me)
              && (forall k :: k in r.1.orders ==> r.1.orders[k].userId != me)
              && r.1.pictures <= s.pictures
              && (forall f :: f in s.pictures && f != pic ==> f in r.1.pictures)
              && (cfg.defaultPicture in s.pictures ==> cfg.defaultPicture in r.1.pictures)
              && (pic != cfg.defaultPicture ==> pic !in r.1.pictures)
    ensures Valid(s) ==> Valid(r.1)
  {
    if !Authenticated(s, session) then (LoginRequired, s)
    else if s.users[session.value].profilePicture.None? then (ServerError, s)
    else
      var me := session.value;
      var pic := s.users[me].profilePicture.value;
      var pictures := if pic != cfg.defaultPicture then s.pictures - {pic} else s.pictures;
      var cartItems := map k | k in s.cartItems && s.cartItems[k].userId != me :: s.cartItems[k];
      var orderItems := map k | k in s.orderItems && !OwnedOrder(s, me, s.orderItems[k].orderId)
                                :: s.orderItems[k];
      var orders := map k | k in s.orders && s.orders[k].userId != me :: s.orders[k];
      var users := map k | k in s.users && k != me :: s.users[k];
      var t := s.(users := users, orders := orders, orderItems := orderItems,
                  cartItems := cartItems, pictures := pictures);
      CascadeKeepsValid(s, t, me);
      (Done, t)
  }

  lemma CascadeKeepsValid(s: Store, t: Store, me: UserId)
    requires Cascaded(s, t, me)
    ensures Valid(s) ==> Valid(t)
  {
    if Valid(s) {
      forall k | k in t.cartItems
        ensures CartItemValid(t.cartItems[k], t.users, t.products)
      {
        assert CartItemValid(s.cartItems[k], s.users, s.products);
      }
      forall k | k in t.orders
        ensures OrderValid(t.orders[k], t.users)
      {
        assert OrderValid(s.orders[k], s.users);
      }
      forall k | k in t.orderItems
        ensures OrderItemValid(t.orderItems[k], t.orders, t.products)
      {
        assert OrderItemValid(s.orderItems[k], s.orders, s.products);
      }
    }
  }

  /** No handler writes a NULL picture: registration stores the column
      default and the picture form a file name. So on a store where every
      picture is set, it stays set, and neither the picture form nor account
      deletion can reach the NULL-picture raise. */
  lemma PicturesStaySet(s: Store, session: Session, username: Field, email: Field, password: Field,
                        confirm: Field, form: ProfileForm, hasher: Hasher, cfg: Config)
    requires Valid(s) && PicturesSet(s)
    ensures PicturesSet(Register(s, session, username, email, password, confirm, hasher).1)
    ensures PicturesSet(Profile(s, session, form, hasher, cfg).1)
    ensures Profile(s, session, form, hasher, cfg).0 != ServerError || form.PasswordForm?
    ensures PicturesSet(DeleteAccount(s, session, cfg).1)
    ensures DeleteAccount(s, session, cfg).0 != ServerError
  {
  }

  /** Account deletion spares only the configured default. When that name
      differs from the column default every new user starts with, deleting
      a fresh account removes the file all fresh accounts share. */
  lemma MismatchedDefaultRemovesSharedPicture(s: Store, me: UserId, cfg: Config)
    requires me in s.users
    requires s.users[me].profilePicture == Some(DefaultProfilePicture)
    requires cfg.defaultPicture != DefaultProfilePicture
    ensures DeleteAccount(s, Some(me), cfg).0 == Done
    ensures DefaultProfilePicture !in DeleteAccount(s, Some(me), cfg).1.pictures
  {
  }

  /** config.py sets `DEFAULT_PROFILE_PICTURE` to `default.webp`, which is
      not the column default. A configuration that keeps that value (and
      supplies the keys config.py lacks) deletes `default_profile.webp`
      together with a fresh account. */
  lemma DefaultWebpRemovesSharedPicture(s: Store, me: UserId, extensions: set<string>)
    requires me in s.users
    requires s.users[me].profilePicture == Some(DefaultProfilePicture)
    ensures var r := DeleteAccount(s, Some(me), Config(extensions, "default.webp"));
            r.0 == Done && DefaultProfilePicture !in r.1.pictures
  {
    MismatchedDefaultRemovesSharedPicture(s, me, Config(extensions, "default.webp"));
  }
}
