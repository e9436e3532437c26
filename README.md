# Accounts core of an academic-venue backend, in Dafny

This project models the account logic of a small Django backend: signing up, logging in, the
logged-in user's details, and listing or fetching user profiles. The user table is an in-memory
store. It holds a sequence of User rows (id, username, email, first name, last name, password
credential), an auto-increment id counter, and at most one Profile per user id (affiliation,
homepage, scholar, github).

Modules, one per concern:

- `Wrappers`: the `Option` type.
- `Text`: the Python string built-ins the views use: `str.isspace`, `strip()`, `split(sep, 1)`
  and `str(n)`, with a decimal round-trip.
- `Models` (accounts/models.py): the User and Profile records, the Profile field limits, the
  full-name formula and `Profile.__str__`.
- `Queries`: the ORM calls the views make: `filter`, `exists` and `get`. `get` has all three
  outcomes, including `MultipleObjectsReturned`.
- `Store`: the `AccountStore` class. Its invariant covers unique ids and usernames, ids below the
  counter, and profiles that are consistent and not dangling. Its methods are `create_user`,
  name-save and cascading delete.
- `Serializer` (accounts/serializer.py): the output record of `UserProfileSerializer`.
- `Views` (accounts/views.py): `signup_api`, `login_api`, `user_detail_api`, `profile_list_api`
  and `profile_detail_api`.

`signup_api` is an imperative method on the store. It runs the three validation checks in
order. The username loop is the method `DeriveUsername`, proved against the recursive
specification `FreeSuffixFrom`. The loop terminates because the candidates `base`, `base1`,
`base2`, … are pairwise distinct, which follows from the decimal round-trip. Each taken candidate
is a different row of a finite table (a pigeonhole lemma). The method then creates the row and
saves the split name. `profile_list_api` keeps the source's step-by-step narrowing of the
queryset and is proved equal to a conjunctive selection. The other views are functions.

Some facts about the code that the model keeps:

- `login_api` issues no token; a successful login answers only a message
  (accounts/views.py:71-73).
- `signup_api` creates no Profile row; it only creates the User and saves its names
  (accounts/views.py:41-48).
- The username loop has no retry bound (accounts/views.py:36-38); the model proves that it
  always terminates.
- What the serializer emits for a user without a Profile is left to the library, so the model
  asserts nothing about those four fields in that case.

## Model

| member | source | states |
|---|---|---|
| Text.IsSpace | accounts/views.py:44 | Python's `str.isspace` set, which decides what `strip()` removes: the characters of category Zs or of bidirectional class WS, B or S |
| Text.Strip | accounts/views.py:44 | `strip()` returns a contiguous piece of its input, cut only at whitespace, with no whitespace at either end; the result is empty exactly when the input is all whitespace |
| Text.StripIdempotent | accounts/views.py:44 | stripping twice is stripping once |
| Text.StripUnique | accounts/views.py:44 | any piece of a string that is cut only at whitespace, has no whitespace at either end, and is empty only for an all-whitespace string is its `strip()` |
| Text.StripTrailingSpace | accounts/views.py:86 | one more space at the end of a string does not change what `strip()` returns |
| Text.SplitOnce | accounts/views.py:44 | `split(sep, 1)` yields one part (the whole string) exactly when `sep` is absent, else two parts that rejoin to the input around the first `sep` |
| Text.NatToDecimal | accounts/views.py:37 | `str(counter)` is a non-empty string of decimal digits with no leading zero |
| Text.DecimalRoundTrip | accounts/views.py:37 | reading back the digits of `str(n)` gives `n` |
| Text.NatToDecimalInjective | accounts/views.py:37 | different counters give different suffixes |
| Models.FullName | accounts/serializer.py:19 | `f"{first} {last}".strip()` has no surrounding whitespace, is "" when both names are empty, and is no longer than the joined text |
| Models.FullNameWithoutLastName | accounts/views.py:86 | with an empty last name, the full name is `first.strip()` (no trailing space is left), and is the first name itself when that has no surrounding whitespace |
| Models.FullNameOfStrippedParts | accounts/views.py:86 | two non-empty stripped names are joined by exactly one space |
| Models.ProfileFieldsValid | accounts/models.py:6-9 | the Profile field limits: affiliation at most 255 characters, and homepage, scholar and github at most 200 each (the default length of a URLField) |
| Models.BlankProfileValid | accounts/models.py:6-9 | all four profile fields may be empty (blank=True) |
| Models.ProfileString | accounts/models.py:11-12 | the string form of a Profile is the owner's full name followed by " Profile" |
| Queries.Filter | accounts/views.py:98-100 | `filter(field=value)` keeps exactly the matching rows and never adds one |
| Queries.FilterConcat | accounts/views.py:96-100 | filtering distributes over concatenation, so the queryset's order is kept |
| Queries.Exists | accounts/views.py:29 | `.exists()` holds exactly when some row matches |
| Queries.Get | accounts/views.py:63-66 | `get` reports DoesNotExist exactly when nothing matches; a found row matches and is the only matching value; MultipleObjectsReturned exactly when two positions match, even when the two rows are equal |
| Queries.GetUnique | accounts/views.py:109-112 | when at most one row can match, `get` never raises MultipleObjectsReturned, and it finds the row whenever one exists |
| Store.ProfilesConsistent | accounts/models.py:5-9 | each stored Profile is keyed by its owner's id (one Profile per user), its owner exists, and its fields are within their limits |
| Store.TableInvariant | accounts/models.py:4-9 | the store's invariant: unique ids and usernames (its uniqueness constraints), ids issued by the auto-increment counter, and consistent profiles |
| Store.ProfileOf | accounts/models.py:5 | a user's Profile is found through the one-to-one relation exactly when one is stored under its id |
| Store.WithoutId | accounts/models.py:5 | deleting a user keeps exactly the rows with another id |
| Store.WithoutIdKeepsUnique | accounts/models.py:5 | deleting rows keeps ids and usernames unique |
| Store.AppendKeepsInvariant | accounts/views.py:41 | a new row with the next id and a free username keeps the table invariant |
| Store.RenameKeepsInvariant | accounts/views.py:45-48 | saving new names on one row keeps the table invariant |
| Store.DeleteKeepsInvariant | accounts/models.py:5 | a cascading delete keeps the table invariant, so no Profile points at a missing user |
| Store.AccountStore.constructor | accounts/models.py:5 | an empty table satisfies the invariant and hands out id 1 first |
| Store.AccountStore.Load | accounts/models.py:4-9 | a table loaded from rows that meet the invariant holds exactly those rows |
| Store.AccountStore.CreateUser | accounts/views.py:41 | `create_user` appends one row with the next id, the given username, email and password and empty names; it keeps the invariant and changes nothing else |
| Store.AccountStore.SaveNames | accounts/views.py:44-48 | setting and saving the names changes exactly the names of that row |
| Store.AccountStore.DeleteUser | accounts/models.py:5 | deleting a user removes its rows and its Profile (cascade); the invariant is kept |
| Serializer.Entries | accounts/serializer.py:15-16 | the output object of a record has the ten keys of `Meta.fields`, in declared order, each paired with its field |
| Serializer.EntriesInjective | accounts/serializer.py:15-16 | two records with the same output object are the same record, so no field is lost in the output |
| Serializer.MetaFieldsDistinct | accounts/serializer.py:15-16 | no key of `Meta.fields` occurs twice |
| Serializer.Serialize | accounts/serializer.py:6-16 | id, email, username, first and last name come from the User row, full_name from `get_full_name`, and the four profile fields from the Profile record |
| Serializer.SerializeUser | accounts/views.py:114 | a user's record is serialized with the Profile reached through `user.profile` |
| Serializer.SerializeMany | accounts/views.py:102 | a list is serialized one record per row, in order |
| Serializer.ProfileFieldsFromProfile | accounts/serializer.py:8-11 | the four profile fields depend only on the Profile, never on the User row |
| Serializer.UserFieldsFromUser | accounts/serializer.py:15-16 | the id, email, username and name fields depend only on the User row |
| Serializer.ProfileStringMatchesFullName | accounts/models.py:11-12 | the serializer's full_name is the Profile's string form without " Profile" |
| Views.SignupRejection | accounts/views.py:19-30 | a missing email, password or full name gives 400 "Email, full name, and password are required."; otherwise a malformed email gives 400 "Invalid email address."; otherwise an email already held gives 400 "Email is already registered."; the signup passes exactly when none applies |
| Views.Blank | accounts/views.py:19 | Python truthiness of a request value, used at lines 19, 59, 97 and 99: a value is missing when it is absent or the empty string |
| Views.EmailLocalPart | accounts/views.py:33 | the base username is the email text before the first `@`, or all of it when there is none |
| Views.LocalPartAt | accounts/views.py:33 | when the first `@` is at position k, the base is the first k characters |
| Views.Candidate | accounts/views.py:34-37 | the k-th username tried: the base itself for k = 0, then the base followed by the decimal digits of k |
| Views.UsernameTaken | accounts/views.py:36 | a username is taken when some user row holds it |
| Views.CandidateInjective | accounts/views.py:37 | the candidates `base`, `base1`, `base2`, … are pairwise distinct |
| Views.CandidateSet | accounts/views.py:36-38 | the first m candidates form a set of exactly m names |
| Views.TakenNamesBound | accounts/views.py:36 | a set of taken usernames is no larger than the table |
| Views.TakenCandidatesBound | accounts/views.py:36-38 | if the first m candidates are all taken, the table has at least m rows |
| Views.FreeSuffixFrom | accounts/views.py:34-38 | the search finds a candidate nobody holds, and every earlier candidate is taken |
| Views.DerivedUsernameFirstFree | accounts/views.py:33-38 | the derived username is the first of `base`, `base1`, `base2`, … that no user holds |
| Views.DerivedUsernameIsLocalPart | accounts/views.py:33-36 | the email's local part is used as is exactly when no user holds it |
| Views.DerivedUsername | accounts/views.py:33-38 | the username derived for an email is held by no existing user and begins with the email's local part |
| Views.DeriveUsername | accounts/views.py:33-38 | the suffix loop terminates and yields the derived username, which no existing user holds |
| Views.FirstAliceGetsLocalPart | accounts/views.py:33-36 | on an empty table, "alice@x.com" gets the username "alice" |
| Views.SecondAliceGetsSuffixOne | accounts/views.py:33-38 | once "alice" is held, "alice@y.com" gets "alice1" |
| Views.SplitFullName | accounts/views.py:44-47 | after stripping, the first name is the text before the first space and the last name the rest verbatim; with no space the last name stays "" |
| Views.SplitFullNameRoundTrip | accounts/views.py:44-47 | composing the full name from the split parts gives back the stripped input |
| Views.SplitFullNameBlank | accounts/views.py:44-45 | an all-whitespace full name gives an empty first and last name |
| Views.SplitFullNameFirstNonEmpty | accounts/views.py:44-45 | a full name with any non-whitespace character gives a non-empty first name |
| Views.NewUserKeepsUsernamesUnique | accounts/views.py:36-41 | the new username differs from every existing one, so usernames stay unique |
| Views.AppendKeepsUniqueEmails | accounts/views.py:29-30 | adding a user whose email nobody holds keeps emails distinct |
| Views.NewUser | accounts/views.py:41-47 | the appended row has the next id, the given email and password, the derived (free) username, and the two parts `SplitFullName` gives, whose full name is the stripped `fullname` |
| Views.CreateAccount | accounts/views.py:32-48 | after validation, exactly one row is appended, with the next id, the derived username, the given email and password, and the split name |
| Views.SignupApi | accounts/views.py:12-50 | a rejected signup answers its 400 and leaves the store unchanged; an accepted one answers 201 "User created successfully." and appends exactly one row; the invariant holds and distinct emails stay distinct |
| Views.LoginApi | accounts/views.py:53-75 | a missing email or password gives 400; an unknown email, and a wrong password for the user found by email, both give 401 "Invalid credentials"; two users holding the email give the uncaught-error 500; 200 "Login successful" exactly when the password check passes for the username of the user holding the email |
| Views.LoginFailuresIndistinguishable | accounts/views.py:63-75 | an unknown email and a wrong password give identical responses |
| Views.LoginWithUniqueEmails | accounts/views.py:62-75 | with distinct emails, login succeeds exactly when some user holds the email and the password check passes for it, and otherwise answers 401 |
| Views.UserDetailApi | accounts/views.py:77-87 | answers 200 with the user's email and names, and a full name that has no surrounding whitespace, is empty when both names are, is the stripped first name when the last name is empty, and so equals the first name when that has no surrounding whitespace |
| Views.UserDetailAgreesWithSerializer | accounts/views.py:86 | the user-detail full name equals the serializer's `get_full_name` |
| Views.Selects | accounts/views.py:97-100 | a user passes the list filters when the email filter is absent or empty or equals its email, and the id filter is absent or equals its id |
| Views.SelectedUsers | accounts/views.py:93-100 | the listed users are exactly those that match every non-empty filter among email and id |
| Views.SelectedWithoutFilters | accounts/views.py:96 | with no filters every user is listed, in store order |
| Views.SelectedConcat | accounts/views.py:96-100 | selection distributes over concatenation, so store order is kept |
| Views.FiltersCompose | accounts/views.py:96-100 | narrowing by email and then by id gives the conjunctive selection |
| Views.ProfileListApi | accounts/views.py:90-103 | answers 200 with the serialized records of exactly the selected users, in store order |
| Views.ProfileDetailApi | accounts/views.py:106-115 | 404 "User not found" exactly when no user has the id; 200 with that user's serialized record whenever the id is held by exactly one row; 500 only when two rows share the id |
| Views.ProfileDetailWithUniqueIds | accounts/views.py:109-112 | with unique ids the detail lookup never faults |

## Left out

- URL routing (accounts/urls.py) is framework dispatch with no logic.
- The three static endpoints are hard-coded data and are not modelled.
  - `open_submissions_api` reads no request parameter and always returns one constant
    (accounts/views.py:117-138).
  - `groups_api` and `invitations_api` pick a constant table from request parameters
    (accounts/views.py:248-249 and 285-288).
  - The commented-out `group_detail_api` is not live code.
- `validate_email` is the framework's validator. It becomes the parameter `isValidEmail`, and its
  pattern is not modelled.
- Password hashing, `authenticate`, and `login` with its session are framework calls.
  `authenticate` becomes the parameter `checkPassword(username, password)`. No session or cookie
  is modelled. The stored `password` field is the credential handed to `create_user`.
- The `IsAuthenticated` permission on `user_detail_api` is framework behaviour.
  `UserDetailApi` takes the authenticated user, and the answer to an anonymous request is not
  modelled.
- Request parsing: request values are `Option<string>`, and non-string JSON values are not
  modelled. The `id` query parameter is `Option<nat>`, where None means absent or empty; turning
  the text into an integer, and the error for text that is not a number, are not modelled.
- The debug `print` in `user_detail_api` is output only.
- Uncaught exceptions are one `ServerFault` body with status 500. This covers
  `MultipleObjectsReturned` when two users share an email; the framework's rendering of that
  error is not modelled.
- Serializer.Serialize: for a user without a Profile the four profile fields are
  `LibraryDefault`. The library decides what is emitted there, and the model asserts nothing
  about it.
- The check-then-create race between the email/username checks and `create_user` is
  concurrency. The model is single-threaded.
- Store.AccountStore.CreateUser: stores the email and username exactly as given. Django's
  `create_user` normalizes both: it lower-cases the email's domain and applies NFKC to the
  username. That normalization is not modelled.
- Store.AccountStore.CreateUser: the database's unique constraint on `username` is a
  precondition instead of an IntegrityError path. The signup view's username is free under
  exact comparison, but after NFKC it could collide with an existing one. The model does not
  capture that collision.
- Views.SignupApi: User column lengths are not modelled. Django's User declares username,
  first_name and last_name with max_length 150 and email with 254, and nothing in the model
  bounds them. On a database that enforces those lengths, the program behaves differently:
  - An over-long first or last name makes `user.save()` at accounts/views.py:48 fail after
    `create_user` at line 41 has already inserted the row. The signup then answers 500 and
    leaves a row with empty names, where the model answers 201.
  - An over-long email, or a derived username over 150 characters, makes `create_user`
    itself fail.
- Views.SignupApi: "distinct emails stay distinct" holds because the model stores emails
  unnormalized. In the program, "a@x.com" followed by "a@X.com" passes the exact-match check at
  accounts/views.py:29. Both rows then hold "a@x.com", and `login_api` for that address raises
  MultipleObjectsReturned.
- No view creates or edits Profile rows. Existing rows enter through `AccountStore.Load`, and
  URL syntax checks on the URL fields are the framework's validators.
- The response is a status and a body value. JSON rendering and headers are not modelled.
