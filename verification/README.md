# Account and data-integrity model of a Flask shop template

This Dafny project models the account logic of a small Flask storefront. It
also models the schema that logic maintains and the admin product table's
browser-side search and sort.

- **Schema** (`models.dfy`, module `Models`): users, products, orders, order
  items and cart items are maps from primary key to row, held in one
  immutable `Store`. The store also holds the set of profile-picture files.
  `Valid` states the schema's constraints: unique usernames, unique emails,
  required user and product links, and an order-item product link that may
  be empty. Column defaults are the `New…` constructors.
- **Shared handler logic** (`accounts.dfy`, module `Accounts`): the outcomes a
  request can end in, the signed-in test, the duplicate queries, login and
  the username/email form. Both revisions share this logic; only flash messages and layout differ.
- **Current handlers** (`auth.dfy`, module `Auth`, app/auth.py): register,
  the four profile forms (info, address, password, picture), account
  deletion and `allowed_file`.
- **Earlier handlers** (`legacy_auth.dfy`, module `LegacyAuth`, auth.py): the
  smaller revision. It has no confirmation field and no current-password
  check. Lemmas relate it to the current revision.
- **Product table** (`product_table.dfy`, module `ProductTable`): the search
  filter and the per-header click state machine.
- **Support** (`forms.dfy`, `text.dfy`, `password_policy.dfy`): posted fields
  as optional strings; string operations; and the password pattern
  `^(?=.*[A-Z]).{8,}$`, modelled exactly as Python's `re.match` reads it.

Each handler is a pure function from the store, the session's user and the
posted fields to an `Outcome` and the store after commit. Every rejection
returns the store unchanged. A posted field is `None` when absent, as
`request.form.get` returns. Python's `not value` is `Filled`. When a
missing password field reaches `check_password` or the pattern, Python
raises. Such a request ends in `ServerError` and commits nothing.

Password hashing is the `Hasher` parameter: one function that hashes and
one predicate that checks. Nothing is assumed about how they relate. The
allowed image extensions and the default picture name are read from the
application config, so they are the `Config` parameter. The models.py column
default `default_profile.webp` is a constant. `MismatchedDefaultRemovesSharedPicture`
shows why the two must agree. If the configured name differs, deleting a fresh
account removes the file that every fresh account uses. config.py:20 sets
`DEFAULT_PROFILE_PICTURE` to `default.webp`. A configuration that keeps that
value and supplies the two keys config.py lacks would delete
`default_profile.webp` together with a fresh account
(`DefaultWebpRemovesSharedPicture`).

models.py, the schema module auth.py imports, has no `address` column.
Yet app/auth.py, which imports `app.models`, writes `current_user.address`.
The model gives `User` an optional `address` field. The `app.models` module
itself is not part of this model: its `User` is taken to be models.py's `User`
plus a nullable `address` column, with the same columns and defaults
(`is_admin` false, `profile_picture` `default_profile.webp`).

`strip()` and `trim()` disagree on white space. Python's `str.isspace`
holds for the information separators U+001C..U+001F and for U+0085.
ECMAScript's `trim()` keeps those but drops the byte-order mark U+FEFF.
`Text.Dialect` selects the set: the address form strips as Python does and
the product search as JavaScript does.

## Model

| member | source | states |
|---|---|---|
| Text.Strip | app/auth.py:155-158 | `strip()` (and `trim()`, in the JavaScript dialect) returns the empty text exactly when the input is all white space in that language's sense; otherwise the result starts and ends with a non-space and is no longer than the input |
| Text.StripDecomposes | app/auth.py:155-158 | in either dialect, the stripped text is the slice of the input between its leading and its trailing run of white space |
| Text.StripDialectsDiffer | static/js/product-table.js:11 | Python's `strip()` removes a lone U+001C..U+001F and keeps a lone U+FEFF; `trim()` does the opposite |
| Text.IndexOfFrom | static/js/product-table.js:17 | for a start inside the text, `indexOf` returns the first position at or after the start where the pattern occurs, and -1 only when it occurs at no such position |
| Text.IndexOfFindsSubstring | static/js/product-table.js:17 | `indexOf(...) !== -1` holds exactly when the pattern is a substring |
| Text.LastIndexOf | app/auth.py:20 | the split point of `rsplit(".", 1)`: -1 exactly when there is no dot; otherwise a dot with no dot after it |
| Text.SplitJoin | app/auth.py:166 | splitting a line joined with a separator gives its parts back when no part contains the separator |
| Text.DecimalRoundTrip | app/auth.py:230 | the decimal text of a user id reads back as that id |
| Text.DecimalInjective | app/auth.py:230 | distinct ids print as distinct decimal texts |
| PasswordPolicy.Accepts | app/auth.py:12-13 | the decision `PASSWORD_PATTERN.match(p)` makes: the text up to an optional final line feed has no other line feed, at least eight characters and an upper-case letter |
| PasswordPolicy.AcceptsIffMatches | app/auth.py:13 | the handlers' decision agrees with the pattern's match semantics (lookahead, `.` stopping at a line feed, `$` before a final line feed) on every string |
| PasswordPolicy.PolicyOnSingleLine | app/auth.py:12-13 | on text without a line feed the pattern means at least eight characters and at least one of `A`..`Z` |
| PasswordPolicy.TrailingLineFeedAccepted | auth.py:11 | the `$` anchor accepts eight characters followed by one line feed, but not seven |
| PasswordPolicy.PolicyExamples | auth.py:10-11 | `Password` passes; lower-case-only or seven-character passwords fail |
| Models.CheckPassword | models.py:34-39 | `check_password`: the hasher's check of the posted password against the stored hash |
| Models.NewUser | models.py:15-25 | a new user is not an admin, has the default picture (not NULL) and no address, and stores the hash of the given password |
| Models.NewProduct | models.py:48-58 | a new product has stock 0 and the default product image |
| Models.NewCartItem | models.py:103-109 | a new cart line has quantity 1 and links one user and one product |
| Models.DetachedOrderItemSurvives | models.py:84-92 | an order item whose product link is cleared stays valid for any catalogue and keeps its order, quantity and title and price copies |
| Models.Valid | models.py:17-109 | the schema's constraints: every user key is below the next key to be issued, unique usernames and emails, every order and cart item links an existing user, every cart item an existing product, every order item an existing order and, when its link is set, an existing product |
| Models.EmptyStoreValid | models.py:17-19 | the empty database satisfies every constraint |
| Accounts.Authenticated | app/auth.py:31 | `current_user.is_authenticated`, which `@login_required` also demands: the session names an existing user |
| Accounts.UsernameOrEmailTaken | app/auth.py:57 | the registration query: some user has the posted username or the posted email |
| Accounts.TakenByOther | app/auth.py:141 | the profile query: a user other than the current one has the posted username or the posted email |
| Accounts.InsertUser | app/auth.py:62-66 | on a valid store, inserting adds exactly one user under a fresh key and leaves every other row and table as it was |
| Accounts.InsertKeepsValid | app/auth.py:56-66 | inserting a user whose username and email are both unused keeps uniqueness and every reference valid |
| Accounts.SameIdentitiesKeepValid | models.py:17-19 | a users-only change that keeps every key, username and email keeps the store valid |
| Accounts.Login | auth.py:77-85 | login succeeds exactly when nobody is signed in, both fields are posted, and the user with that username passes the password check; it signs in that user; otherwise the session is unchanged |
| Accounts.UpdateInfo | app/auth.py:130-151 | guard order: login, both fields filled, no other user holds the username or the email; only on success the current user's two fields change, nothing else changes, and validity is kept |
| Accounts.KeepingOwnInfoAccepted | app/auth.py:140-144 | resubmitting one's own username and email succeeds and changes nothing |
| Auth.AllowedFile | app/auth.py:16-20 | `allowed_file`: a dot is present and the lower-cased text after the last dot is a configured extension |
| Auth.Extension | app/auth.py:229 | `rsplit(".", 1)[1].lower()`: the lower-cased text after the last dot |
| Auth.PictureFileName | app/auth.py:230 | the stored picture name `user_<id>.<ext>`, the id written in decimal |
| Auth.AllowedFileIff | app/auth.py:16-20 | a file is allowed exactly when it has a last dot and the lower-cased text after it is a configured extension |
| Auth.PictureNamesDistinct | app/auth.py:229-230 | two different users never get the same stored picture name |
| Auth.Register | app/auth.py:34-69 | guard order: signed in, four fields filled, confirmation equal, password rule, no username/email clash; every rejection leaves the store unchanged; success inserts exactly one user and keeps uniqueness |
| Auth.RegisteredUserHasDefaults | app/auth.py:56-66 | with filled fields, a matching confirmation, an accepted password and no clash, registration succeeds and the new user is not an admin and has the default picture |
| Auth.AddressLine | app/auth.py:166 | the stored address: the four fields joined with the pipe character |
| Auth.AddressRoundTrip | app/auth.py:165-166 | the stored address line splits back into street, postal code, city and country when none contains the pipe character |
| Auth.UpdateAddress | app/auth.py:153-169 | rejected, unchanged, when a stripped field is empty; otherwise the current user's address becomes the four stripped fields joined by the pipe character, and nothing else changes |
| Auth.ChangePassword | app/auth.py:171-196 | the hash changes only when the current password verifies, the new password equals its confirmation, and the rule holds; checks run in that order; a missing field raises, and every failure leaves the store unchanged |
| Auth.ReplacePicture | app/auth.py:198-238 | guard order: file part, non-empty name, allowed extension, then a NULL current picture raises; on success the user points at `user_<id>.<ext>`; the old file goes unless it is the default; no other file or row changes |
| Auth.Profile | app/auth.py:126-251 | whatever form is posted, only the signed-in user's own record and the picture files can change; an unknown form shows the page |
| Auth.DeleteAccount | app/auth.py:254-294 | a NULL picture raises before anything is deleted; otherwise removes the user, exactly their cart items, their orders and those orders' items; other records stay unchanged; the default picture is kept; validity is kept |
| Auth.PicturesStaySet | app/auth.py:62-66 | no handler stores a NULL picture, so on such a store the picture form and account deletion never hit the NULL-picture raise |
| Auth.SeparatorOnlyFieldRefused | app/auth.py:155-162 | an address field holding only an information separator strips to nothing and is refused, with the store unchanged |
| Auth.CascadeKeepsValid | app/auth.py:272-290 | after the cascade no cart item, order or order item refers to anything removed |
| Auth.DefaultWebpRemovesSharedPicture | app/auth.py:261-270 | with the configured default set to `default.webp` (the value config.py:20 gives), deleting a fresh account removes `default_profile.webp`, the file every fresh account shares |
| Auth.MismatchedDefaultRemovesSharedPicture | app/auth.py:261-270 | if the configured default differs from the column default, deleting a fresh account removes the column-default file |
| LegacyAuth.Register | auth.py:25-55 | guard order: signed in, three fields filled, password rule, no username/email clash; every rejection leaves the store unchanged; success inserts exactly one user |
| LegacyAuth.ChangePassword | auth.py:139-149 | the hash changes exactly when the posted password satisfies the rule; no current password is checked |
| LegacyAuth.Profile | auth.py:112-152 | only the info and password forms act, and they touch only the signed-in user's record |
| LegacyAuth.RegisterAgreesWhenConfirmed | auth.py:27-52 | with the confirmation equal to the password, both revisions' registration give the same outcome and store |
| LegacyAuth.ConfirmationOnlyCheckedLater | auth.py:27-46 | for any filled fields with an accepted password and no clash, a confirmation that differs is ignored by this revision, which registers, and refused by the current one, which changes nothing |
| LegacyAuth.ChangePasswordAgreesWhenVerified | auth.py:139-149 | once the current password verifies and the confirmation matches, both revisions' password change agree |
| LegacyAuth.NoCurrentPasswordNeeded | auth.py:139-149 | this revision sets a rule-abiding password without the current one; the current revision refuses the same request |
| ProductTable.SearchKey | static/js/product-table.js:11 | the search key: the input trimmed with JavaScript's white space, then lower-cased |
| ProductTable.Filter | static/js/product-table.js:10-23 | one flag per row; a row is shown exactly when its lower-cased text contains the trimmed, lower-cased search text; a blank search shows every row |
| ProductTable.BlankSearchShowsAll | static/js/product-table.js:11-18 | an empty or blank search (white space as `trim()` reads it) makes any row visible |
| ProductTable.Reverse | static/js/product-table.js:47-53 | the reversed rows: same length, mirrored positions, same rows |
| ProductTable.CompareRows | static/js/product-table.js:63-86 | the sort callback on the clicked column: the comparison on (a, b) when ascending and on (b, a) when descending |
| ProductTable.Insert | static/js/product-table.js:61-86 | inserting by the callback adds exactly that row |
| ProductTable.SortRows | static/js/product-table.js:61-91 | the sorted rows are a permutation of the rows |
| ProductTable.Step | static/js/product-table.js:55-60 | a header's state after a click: the first click only clears the first-click flag, every later click flips the direction |
| ProductTable.Click | static/js/product-table.js:42-92 | a first click reverses; a later click flips the direction and then sorts; a throwing callback leaves the rows as they were; only the clicked header's state changes; rows are permuted |
| ProductTable.FirstClickIgnoresComparator | static/js/product-table.js:46-57 | a first click's result does not depend on the comparison |
| ProductTable.SecondClickSortsAscending | static/js/product-table.js:39-63 | from the initial state the second click sorts the reversed rows in ascending order |
| ProductTable.ClicksPermute | static/js/product-table.js:44-91 | after any run of clicks the rows are a permutation of the original rows |
| ProductTable.HeaderStateAfterClicks | static/js/product-table.js:35-40 | a header's state depends only on how often that header was clicked |
| ProductTable.UnclickedAfter | static/js/product-table.js:39-60 | after n clicks a header has left its first-click state iff n > 0, and it is ascending iff n is positive and even |
| ProductTable.ReverseKeepsCells | static/js/product-table.js:64-65 | reversing does not change whether every row has the clicked column's cell |

## Left out

- Flask plumbing is left out: routing, redirects, flash messages and templates. A request ends in an `Outcome` value. GET requests only render a page; the model covers the POST branches and the profile page's fall-through (`OtherForm`).
- The logout routes (app/auth.py:106-115, auth.py:92-101) only clear the session and are not modelled.
- The profile page's order count and last-order date (app/auth.py:240-251) are read-only display data and are not modelled.
- Password hashing is left out. `generate_password_hash` and `check_password_hash` become the `Hasher` parameter. `generate_password_hash` draws a fresh random salt on every call, while `Hasher.hash` is a fixed function, so the store equalities in `LegacyAuth.RegisterAgreesWhenConfirmed` and `LegacyAuth.ChangePasswordAgreesWhenVerified` hold only up to that salt.
- The file system is left out. Picture files are a set of names. `os.makedirs` is not modelled, and neither is the upload's content.
- `secure_filename` is taken as the identity on `user_<id>.<ext>`. That holds when the configured extensions are plain ASCII letters and digits.
- Case mapping is ASCII only: `lower()`/`toLowerCase()` map only `A`..`Z`, while both languages also lower non-ASCII letters. White space follows each language's full set.
- Column length limits (`String(64)` and the like) are not modelled.
- Timestamps (`created_at`) are not modelled.
- Prices are carried as values with no arithmetic on them.
- Query and commit mechanics are not modelled. Neither is the check-then-insert race between two concurrent registrations, which the database's unique constraints resolve.
- Accounts.Login: requires unique usernames. The schema guarantees this. Which duplicate `.first()` would pick on a store that breaks the constraint is not modelled.
- ProductTable.SortRows: stands in for the browser's sort. It claims only that the result is a permutation, not an order, because the cell comparison (`parseFloat` and `localeCompare`) is a parameter.
- Row text for the search is given as data: the model does not derive `textContent` from the cells.
- The table's DOM updates (`style.display`, `appendChild`) are represented by the visibility flags and the new row order.
- The cart, checkout, order-creation and product-administration handlers are not part of this model. They live in modules this model does not cover. The schema constraints they would have to keep are stated in `Models.Valid`.
- config.py, static/js/script.js and app.py are not part of this model. Two of the keys app/auth.py reads (`IMAGE_EXTENSIONS`, `PROFILE_PICTURE_FOLDER`) are absent from config.py, which has `ALLOWED_EXTENSIONS` and `UPLOAD_FOLDER`, so the extensions are a parameter. Its `DEFAULT_PROFILE_PICTURE` is `default.webp`, not the column default; the default name is a parameter, and `DefaultWebpRemovesSharedPicture` fixes it to that value. Under config.py alone, `delete_account` would stop at the missing `PROFILE_PICTURE_FOLDER` key before deleting anything.
