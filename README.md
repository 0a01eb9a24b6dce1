# Sips café reviews: handler logic in Dafny

This project models the request-handling core of the Sips café-review web
application (`app.py`). Users sign up, choose a role (customer or shop
owner), log in, and post, edit and delete 1–5 star reviews of cafés. Users
can also update their profile. What the model covers:

- **Documents** (`documents.dfy`): the records of the `users`, `cafes` and
  `reviews` collections. A user document field can be missing, stored as
  `null`, or hold a value, because the code reads each of these differently.
  The module also holds the getters of the session `User` wrapper
  (`username`, `role` with its `"customer"` default), `load_user`, and
  the profile update.
- **ObjectIds** (`object_ids.dfy`): 12-byte document ids. `str(oid)` gives
  24 lower-case hex digits. `ObjectId(s)` parses a string and can fail.
  Comparing ids as strings, as the authorship checks do, is proved to be the
  same as comparing the ids.
- **Text** (`text.dfy`): `strip()`, `lower()`, `isdigit()` and `int()` on
  form input, over ASCII. `strip()` is characterised independently of its
  definition, `lower()` through idempotence and commuting with `strip()`, and
  `isdigit()` with `int()` jointly, through the ratings 1–5 they accept.
- **Validation** (`validation.dfy`): the signup check chain, where the first
  failing check decides the error, and the rating/text check shared by
  posting and editing a review.
- **Responses** (`responses.dfy`): a handler answers with a rendered view or
  a redirect, plus the flash message it sets, or fails with an exception that
  escapes it (`Fault`).
- **App** (`store.dfy`): a `Store` class holds the three collections as maps
  keyed by id. It has one method per handler: `signup`, `select_role`,
  `login`, `cafe_detail`, `add_review`, `delete_review`, `edit_review` and
  `profile`. `@login_required` is modelled as `RequireLogin`. Each method
  states its whole response and new state on every path. So a rejected
  request provably leaves its table unchanged, and an accepted one changes
  exactly the fields the code writes.
- **Scenarios** (`scenarios.dfy`): short request sequences on a fresh store.

Inputs the handlers take from outside are parameters:

- the current user's id (Flask-Login's `current_user`);
- whether a session is already signed in;
- the raw form strings (a field with a `""` default is passed as a string;
  a field read with a bare `.get` is passed as an `Option`);
- the password hash signup stores;
- the password checker login uses;
- the id the database assigns to an inserted document.

## Model

| member | source | states |
|---|---|---|
| `Documents.ParseRole` | app.py:139-141 | The submitted role names a role exactly when it is the string "customer" or "owner". A missing field or any other string names none. |
| `Documents.UserName` | app.py:43-45 | `User.username` is `None` exactly when the stored value is null. It is `""` when the key is missing and the stored name otherwise. |
| `Documents.UserNameWrites` | app.py:114-121 | Signup's record reads back the name it stored. A profile update without a username makes `User.username` read `None`, and one with a username makes it read that name (app.py:372-378). |
| `Documents.UserRole` | app.py:51-53 | `User.role` is owner only for a stored "owner". It is customer for a stored "customer" or a missing key. It is `None` for the null that signup stores. |
| `Documents.LoadUser` | app.py:57-63 | The session id resolves to a user exactly when it parses as an ObjectId and that user exists. Every other case reads as anonymous. |
| `Documents.SessionRoundTrip` | app.py:40-63 | The `str(_id)` that login stores in the session resolves back to the same user. |
| `Documents.ProfileUpdate` | app.py:376-390 | Username and phone are always set, to null when the field is missing. The shop location and hours are set only when the user's role reads as owner. Email, password hash and role never change. |
| `Documents.ProfileMayDuplicateUsername` | app.py:372-390 | The profile update has no uniqueness check, so one user can take another user's username. |
| `Documents.IsAuthorIff` | app.py:308 | The string comparison `str(review.user_id) == str(current_user id)` holds exactly when the ids are equal. |
| `ObjectIds.ParseObjectIdSpec` | app.py:253-257 | `ObjectId(s)` succeeds exactly on 24 hex digits. The parsed id prints back as the lower-cased input. |
| `ObjectIds.ParseIdString` | app.py:143 | `ObjectId(str(oid)) == oid`. |
| `ObjectIds.IdStringInjective` | app.py:332 | Two ids have the same string form exactly when they are the same id. |
| `ObjectIds.SessionObjectId` | app.py:282 | `ObjectId(current_user.get_id())` is the current user's own id. |
| `Text.TrimCharacterized` | app.py:91 | `strip()` returns exactly the slice that has only whitespace outside it and no whitespace at either end (both directions). |
| `Text.TrimEmptyIff` | app.py:276 | The stripped text is empty exactly when the raw text is all whitespace. |
| `Text.TrimIdempotent` | app.py:265 | Stripping an already stripped string changes nothing. |
| `Text.TrimFixedIff` | app.py:265 | A string is its own strip exactly when it neither starts nor ends with whitespace. |
| `Text.TrimLowerCommute` | app.py:92 | Stripping and lower-casing commute. |
| `Text.StarRatingIff` | app.py:267-272 | `isdigit()`, then an `int()` that does not raise, then `1 <= int(s) <= 5`, accepts exactly one digit 1–5, possibly after leading zeros, with at most 4300 digits in all. |
| `Text.SingleDigit` | app.py:264-271 | A single digit needs no stripping, passes `isdigit()`, and `int()` reads it as its own value. |
| `Validation.NormalizeEmailIdempotent` | app.py:163 | Normalising an email that signup already normalised gives it back unchanged, so login finds the stored address. |
| `Validation.SignupError` | app.py:95-107 | Signup is accepted exactly when the name, the email and a password of at least 6 characters are present and neither the email nor the username is taken. A short password is always refused. |
| `Validation.SignupReportsFirstFailure` | app.py:95-107 | The one error reported is the first failing check in the code's order. |
| `Validation.SignupKeepsUnique` | app.py:104-121 | An insert after the checks pass keeps emails and usernames unique. |
| `Validation.CheckReviewRejects` | app.py:264-278 | A review is refused as not a number when the stripped rating is not digits (this includes an empty rating). When it is digits but more than 4300 of them, `int()` raises. Otherwise it is refused as out of range when its value is outside [1,5], and for empty text when the text is only whitespace. The checks run in that order. |
| `Validation.CheckReviewAccepts` | app.py:264-285 | A review is accepted exactly for a star rating (at most 4300 digits) and a text that is not all whitespace. It yields the rating's value and the stripped, non-empty text. |
| `Validation.CheckedReviewWellFormed` | app.py:280-287 | An accepted rating and text form a well-formed stored review: rating in [1,5] and non-empty text with no whitespace at either end. |
| `Responses.RefusalTextsDistinct` | app.py:97-359 | Two refusal flashes have the same text exactly when they are the same refusal. The only shared texts are the out-of-range and empty-text rejections, which posting and editing word alike. Both login failure causes use the one text "Invalid email or password.". |
| `App.RequireLogin` | app.py:26-31 | A request passes `@login_required` exactly when its session id loads a user. Otherwise it is redirected to login with the info message. |
| `App.ControlsOnlyOnOwnReviews` | app.py:238-241 | On the café page, the annotated author id equals the viewer's id exactly on the viewer's own reviews. |
| `App.AnnotatedListing` | app.py:236-239 | Adding the author id string to each fetched review keeps the listing of that café's reviews. |
| `App.Store.Signup` | app.py:87-127 | An already signed-in user is sent home. Otherwise the username is stripped and the email stripped and lower-cased before any check. A failed check re-renders the form with that error and leaves users unchanged. Success inserts exactly one user with the normalised name and email, the hash and role `None`, signs them in and goes to role selection. Uniqueness is kept. |
| `App.Store.SelectRole` | app.py:138-149 | "customer" or "owner" sets only the current user's role and redirects home. Any other value, or none, leaves users unchanged and re-renders the form. |
| `App.Store.Login` | app.py:159-178 | An unknown email and a wrong password give the same response, "Invalid email or password." with the email kept. Success signs in a user with that email whose hash matches, then redirects to `next` if non-empty, else home. A record with no username key is signed in and then faults, since `user_doc['username']` raises (app.py:173-174). With unique emails, success happens exactly when such a user exists. |
| `App.Store.FindReviews` | app.py:236 | The result lists each review of the café exactly once, as stored. |
| `App.Store.Annotate` | app.py:238-239 | Each review gets its author's id string. Nothing else changes. |
| `App.Store.CafeDetail` | app.py:226-247 | A malformed id or a missing café redirects home with its error. Otherwise the page shows the café, all its reviews annotated, and the viewer's id string. |
| `App.Store.AddReview` | app.py:252-290 | A malformed or unknown café id, or a rejected rating or text, leaves reviews unchanged and gives that path's redirect and message. A rating on which `int()` raises faults and leaves reviews unchanged. Success inserts exactly one review: that café, the current user's id and username, the parsed rating and the stripped text. Reviews stay well formed. |
| `App.Store.DeleteReview` | app.py:295-314 | A malformed id, a missing review or a non-author leaves reviews unchanged. When the author deletes, exactly that review is removed. |
| `App.Store.EditReview` | app.py:319-359 | Authorship is checked before the rating and text, so a non-author is refused even for invalid input. Every refusal, and a rating on which `int()` raises (a fault), leaves reviews unchanged. Success changes only that review's rating and text. Its café, author and username stay the same, as do all other reviews. |
| `App.Store.UpdateProfile` | app.py:370-393 | Only the current user's record changes, as `ProfileUpdate` says. The handler redirects to settings. |
| `Scenarios.OneDigitReview` | app.py:264-278 | A one-digit rating with clean text is accepted when the digit is 1–5. Otherwise it is refused as out of range, so "6" is refused. |
| `Scenarios.EmptyTextReview` | app.py:276-278 | A valid rating with an empty text is refused for the text. |
| `Scenarios.OverlongRatingRaises` | app.py:267-271 | A digits-only rating longer than 4300 characters, such as 4300 zeros followed by "3", passes `isdigit()` and then makes `int()` raise, whatever the text. |
| `Scenarios.SignupThenChooseOwner` | app.py:90-147 | Signing up on an empty table creates the account with no role and leads to role selection. Choosing "owner" then makes the role read as owner. |
| `Scenarios.PostReviews` | app.py:252-290 | Posting with rating "6", then with an empty text, leaves no review. Posting "4" with text then stores exactly one review rated 4. |
| `Scenarios.OnlyAuthorDeletes` | app.py:293-314 | Another user's delete is refused and the review stays. The author's own delete removes it. |

## Behaviour of the code worth noting

- Signup stores the role as `null`, and `User.role` reads `null` as `None`. The `"customer"`
  default applies only to a record with no role key.
- The profile handler writes `null` for a username or phone the form omits.
- `int()` raises `ValueError` on a string of more than 4300 digits, leading zeros included, and
  the review handlers do not catch it. A digits-only rating that long therefore ends the request
  with a server error: no flash is set and nothing is written.
- The edit handler's "not a number" message is stored in the source as mis-encoded text
  (`1` followed by U+00E2, U+20AC, U+201C, then `5`). `MessageText` keeps those characters.

## Left out

- Flask routing, template rendering, the flash store and URL building: a handler's outcome is a `Response` value (a view or a redirect target, plus a message).
- The GET branches of `signup`, `login`, `select_role` and `profile`: they only render a form.
- `index`, `logout`, `home`, `settings` and `saved_places`: they only render or redirect, or only clear the session.
- `search`: it passes the raw query to MongoDB's `$regex`, so its meaning depends on regular-expression semantics outside this model.
- Password hashing (`generate_password_hash`, `check_password_hash`): foreign cryptographic calls. The stored hash and the checker are parameters.
- Flask-Login's session store: the signed-in user's id and whether a session exists are parameters. `login_user` appears as the id a handler returns.
- The MongoDB driver: collections are maps keyed by id. The id `insert_one` assigns is a parameter that must be new. `find_one` by email, when several users share an email, may return any of them.
- Failures of the database itself are not modelled. In `load_user` (app.py:59-62) such a failure would read as an anonymous user, and in `cafe_detail` (app.py:227-231) it would flash "Invalid cafe link."; in the other handlers it would raise.
- `created_at` timestamps (`datetime.utcnow()`): not stored in the model's records.
- Café documents carry only a name; no handler in scope writes a café.
- ObjectId parsing of 12-byte `bytes` values and `bytes.fromhex`'s tolerance of embedded whitespace: route arguments are strings, and an id with embedded spaces is not modelled.
- `strip()`, `lower()` and `isdigit()` are modelled over ASCII only. Python's Unicode `isdigit` accepts characters such as `'²'`, which `int()` then rejects. The model treats `isdigit` as non-empty ASCII digits.
- `int()`'s digit limit is taken at Python's default of 4300. An interpreter configured with another limit, or one that predates the limit, is not modelled.
- The check-then-insert race in signup: concurrency is out of scope, and each handler runs as one sequential step.
- Reviews without a `user_id` field (where `str(None)` would be compared): every review is inserted by `add_review`, which always sets it.
