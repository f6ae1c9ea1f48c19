# openedx-plugin: display-name validation and profile update

A Dafny model of the only decision logic in this Open edX REST plugin:

- **The display-name validator** `get_name_validation_error` (module `Utils`, `utils.dfy`).
  A proposed full name leads to one of four results:
  - no value, when the name is absent or empty;
  - `''`, when the name is valid;
  - `"Full name can't be longer than 255 symbols"`;
  - `"Enter a valid name"`.

  The length check comes first. After it comes "contains `<` or `>`" OR "contains a URL".
  The URL pattern `https?://(?:...)*` ends in a starred group. A match therefore exists exactly where
  `http://` or `https://` occurs, case-sensitively. `ContainsHtml` and `ContainsUrl` compute the two scans.
  Their contracts tie them to reference predicates: `HasMarkup` (some index holds `<` or `>`) and
  `HasUrl` (a scheme prefix occurs at some index).
- **The profile-update handler** `UsersProfileUpdateView.post`, the success envelope `ResponseSuccess`
  and the user listing `UsersAPIView.get` (module `Api`, `api.dfy`).
  - The user table is a `UserStore` class. It holds a map from username to `User` record and the order
    in which the table lists users.
  - The platform helper `email_exists_or_retired` is a parameter `string -> bool`.
  - `ProfileUpdate` is the handler's decision as a function of the store and the request. It returns
    the outcome and the resulting store.
  - `UserStore.Post` performs the same steps in place: the checks in order, then one field assignment
    after another, then the save. Its contract is that it agrees with `ProfileUpdate`.
  - Lemmas about `ProfileUpdate` state the check order, the error replies, the field merge and the
    invariants an update keeps.

Three behaviours of the code are kept as written:

- When the effective name is empty, the validator returns no value, and `len(None)` at
  openedx_plugin_api/api.py:106 raises. The model ends such a request in `Unhandled(TypeError)`.
- The profile phone number defaults to the user-level attribute `user.phone_number`
  (openedx_plugin_api/api.py:117), not to the profile's own phone number. Python evaluates that default
  before `data.get` runs, so it is read even when `phone_number` is supplied. The stock Django user model
  has no such attribute. The model therefore lets the attribute be absent (`Field.Absent`). In that case
  every update that passes validation ends in `Unhandled(AttributeError)` and saves nothing.
- Any changed email for which `email_exists_or_retired` holds is rejected, retired ones included
  (openedx_plugin_api/api.py:98-99).

## Model

| member | source | states |
|---|---|---|
| `Utils.ContainsHtml` | openedx_plugin_api/utils.py:22-27 | true exactly when some character of the name is `<` or `>` |
| `Utils.ContainsUrl` | openedx_plugin_api/utils.py:29-34 | true exactly when `http://` or `https://` occurs somewhere in the name (the regex's starred tail may be empty) |
| `Utils.GetNameValidationError` | openedx_plugin_api/utils.py:14-41 | no value iff the name is absent or empty; the length message iff it is longer than 255 (whatever it contains); the generic message iff it is 1..255 long and has markup or a URL; `''` iff it is 1..255 long with neither |
| `Utils.ValidationOutcomes` | openedx_plugin_api/utils.py:36-41 | the result is always one of the four values; markup and URL are not told apart |
| `Utils.RejectedIffNonEmptyMessage` | openedx_plugin_api/utils.py:38-41 | a present non-empty name always gets a string, which is non-empty exactly when the name is too long, has markup or has a URL |
| `Utils.MarkupExample` | openedx_plugin_api/utils.py:22-27 | `"<b>hi</b>"` gets "Enter a valid name" |
| `Utils.UrlExample` | openedx_plugin_api/utils.py:29-34 | `"visit http://example.com"` gets "Enter a valid name" |
| `Utils.BareSchemeExample` | openedx_plugin_api/utils.py:33 | the bare prefix `"https://"` is already a URL |
| `Utils.UpperCaseSchemeExample` | openedx_plugin_api/utils.py:33 | `"HTTP://x"` is valid: the URL test is case-sensitive |
| `Utils.LengthBeforeContent` | openedx_plugin_api/utils.py:38-39 | any name over 255 characters that also holds `<`, `>` or a URL still gets the length message, not the generic one |
| `Api.BadRequest` | openedx_plugin_api/api.py:91-94 | a 400 reply whose body is exactly `{"message": text}` |
| `Api.ResponseSuccess` | openedx_plugin_api/api.py:55-60 | status 200 when none (or 0) is given, else the given one; body `{"response": ...}` whose keys are those of `data` plus `success`, with `data`'s values, and `success` true unless `data` overrides it |
| `Api.Entries` | openedx_plugin_api/api.py:67 | one `{id, name}` entry per user, at the user's position |
| `Api.ListUsers` | openedx_plugin_api/api.py:65-68 | a 200 reply listing, in store order, each user's id and, under "name", the username (not the profile name) |
| `Api.InOrder` | openedx_plugin_api/api.py:66 | the records of all users, in table order |
| `Api.UserStore.All` | openedx_plugin_api/api.py:66 | `User.objects.all()`: one record per listed username, in listing order |
| `Api.ProfileUpdate` | openedx_plugin_api/api.py:86-129 | the store changes only when the reply is the success envelope for the requested user; then it keeps the same usernames and changes no other user's record |
| `Api.MissingUsernameRejected` | openedx_plugin_api/api.py:89-94 | an absent or empty username gets 400 "Username must be passed to update the profile."; the store is unchanged and the reply is the same for every store (no lookup) |
| `Api.UnknownUserRejected` | openedx_plugin_api/api.py:125-129 | a username not in the store gets 400 naming it, whatever else is supplied; the store is unchanged |
| `Api.EmailCollisionRejected` | openedx_plugin_api/api.py:97-103 | a supplied email that differs from the stored one and for which the helper holds gets 400 naming that email, before the name is validated; nothing is saved |
| `Api.UnchangedEmailNotChecked` | openedx_plugin_api/api.py:97-98 | when the email is absent or equal to the stored one, the outcome and the store do not depend on the helper |
| `Api.InvalidNameRejected` | openedx_plugin_api/api.py:104-110 | an effective name (supplied, else the stored profile name) that is too long or has markup or a URL gets 400 with the validator's message; the in-memory email change is not saved |
| `Api.EmptyNameCrashes` | openedx_plugin_api/api.py:105-106 | an empty effective name ends in an unhandled `TypeError`, not success; the store is unchanged |
| `Api.MissingPhoneAttributeCrashes` | openedx_plugin_api/api.py:117 | for a user without the `phone_number` attribute, no update is saved: the request ends in a 400 or an unhandled exception, and a request whose effective name passes validation ends exactly in an unhandled `AttributeError` |
| `Api.AcceptedUpdate` | openedx_plugin_api/api.py:111-123 | on success each supplied field replaces the stored value and each other field keeps it; the profile phone number defaults to the user-level attribute; id, username and the user-level phone attribute stay; other users are untouched; the reply is 200 with the message naming the user |
| `Api.SavedIffAccepted` | openedx_plugin_api/api.py:86-123 | the reply is a 200 exactly when the username is given and known, the email does not collide, the effective name is valid and the phone attribute exists |
| `Api.UpdateKeepsWellKeyed` | openedx_plugin_api/api.py:111-119 | if every record is stored under its own username, that still holds after any request |
| `Api.UpdateKeepsEmailsUnique` | openedx_plugin_api/api.py:97-104 | if no two users share an email and the helper reports every stored email, no single request, applied on its own, makes two users share one |
| `Api.UpdateKeepsListing` | openedx_plugin_api/api.py:111-119 | a profile update never changes the user listing |
| `Api.UserStore.Post` | openedx_plugin_api/api.py:86-129 | performing the steps one at a time on the store gives the outcome and new table of `ProfileUpdate`, keeps the store invariant and the listing order |

## Left out

- Profile-image upload and delete (`UserProfileImageUpdateView`). They only delegate to the platform's image
  validation, generation, removal and storage helpers, which are not part of this model.
- Account deletion (`UserAccountDeleteView`). It consists of a database transaction, retirement-request
  creation, site and locale lookup, the notification email and logout. All of these are calls into the
  platform.
- The version, test and usage-hint views. They return constant replies. The `print` and logging calls are
  also left out.
- Route registration behind feature flags (openedx_plugin_api/urls.py) and the schema migration. The first
  is framework configuration and the second is declarative.
- Authentication decorators, HTTP serialisation, `content_type`, and the ORM's `save()`. The model keeps only
  the resulting store state.
- `email_exists_or_retired` is a parameter. Its lookup of existing and retired emails is not part of this model.
- `Api.ProfileUpdate`: JSON `null` values in the request are not modelled. A supplied key carries a value of
  the field's type, so a supplied `null` name, which would also reach `len(None)`, is not represented.
- `Api.ProfileUpdate`: every user is assumed to have a profile. The exception raised by a missing
  `user.profile` is not modelled.
- `Api.ProfileUpdate`: the username lookup is exact string equality. Any case-insensitivity of the database
  collation is not modelled, and neither are database errors on save.
- `Api.ProfileUpdate`: a failure of `user.profile.save()` after `user.save()` cannot occur in the model.
  Both records are written together.
- `Api.ListUsers`: the listing's order is the table's order as given to the store. The database's query order
  is not modelled.
- `Api.UpdateKeepsEmailsUnique`: requests are modelled one at a time, each as a single step. The source checks
  the email (openedx_plugin_api/api.py:99) and saves it (openedx_plugin_api/api.py:118) without locking, so two
  concurrent updates can both pass the check for the same email and both save it. That check-then-save race is
  not captured, and uniqueness is proved only for requests that run one after another.
