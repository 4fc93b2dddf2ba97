# Graphical-password accounts, modelled in Dafny

The application adds a second factor to username/password login: an ordered
selection of images. The browser submits it as one string of image names
joined by commas. At registration the view appends a fresh random salt to that
string, hashes the result with SHA-256, and stores the hex digest and the salt
in a `GraphicalPassword` record. That record belongs one-to-one to the new user.
At login the view recomputes the digest with the stored salt and compares it
with the stored hash.

This project models that scheme:

- `hashing.dfy` (module `Hashing`): `hash_image_sequence`. SHA-256 is a function
  value `h`. The predicate `IsDigestFunction(h)` says that every output of `h`
  is 64 lowercase hex characters. A per-pair collision-resistance hypothesis,
  `Distinguishes(h, x, y)`, is taken only by the lemmas about order and salt
  sensitivity.
- `tokens.dfy` (module `Tokens`): Python's `str.split(',')`, which the register
  view uses to count images, and the comma join that builds the submitted
  string.
- `models.dfy` (module `Models`): the `User` fields the views touch, the
  `GraphicalPassword` record, its column widths, its timestamps and `__str__`.
- `views.dfy` (module `Views`): the POST branches of `register` and `login` as
  pure specifications:
  - `RegisterCheck` and `LoginDecision` give each view's chain of early-return
    checks, as a value of type `Outcome`.
  - `AfterRegister` gives the store after a registration.
  - `WithoutUser` is the cascading delete.
  - `Valid` is the store's one-to-one invariant.
- `properties.dfy` (module `Properties`): what the two views promise, as lemmas
  about those specifications.
- `store.dfy` (module `Store`): class `AccountStore`. It holds the two tables as
  map fields that its methods update in place. `Register` and `Login` follow
  the views step by step and are proved against the specifications.
- `scenarios.dfy` (module `Scenarios`): the cases the repository's tests
  exercise, including a client method that registers a user and then logs in.

The framework services are collected in a `Env` record:

- SHA-256;
- `validate_email`;
- the encoding `create_user` applies to the primary password.

`authenticate` is modelled as "the username exists and its stored password
equals the encoding of the one given".

The salt from `secrets.token_hex(16)` and the clock reading for the timestamps
are parameters of `Register`. Its `requires IsSalt(salt)` is the generator's
guarantee: 32 lowercase hex characters. `Login` has no `modifies` clause, so it
cannot change the modelled fields of the store.

The model follows the code as written:

- The register view writes the user and the record in two separate steps, with
  no transaction around them. `Register` does the same, and
  `InterruptedRegistration` shows what the first step alone leaves behind.
- The view hashes the raw submitted string. It never re-joins a token list.
- The image count comes from Python's split, so empty pieces count. `",,,"`
  counts as four images and passes the 4–6 check (`EmptyPiecesCount`).

## Model

| member | source | states |
|---|---|---|
| Hashing.HashImageSequence | accounts/views.py:19-24 | the digest of sequence + salt is 64 lowercase hex characters whenever the hash is a SHA-256-shaped digest function |
| Hashing.SaltedInputInjective | accounts/views.py:23 | with equal-length salts, `sequence + salt` determines both the sequence and the salt, and conversely |
| Hashing.DigestsAgreeIff | accounts/views.py:19-24 | if the hash tells the two salted inputs apart, two digests made with equal-length salts agree exactly when both the sequences and the salts agree (order and salt sensitivity) |
| Tokens.Split | accounts/views.py:50 | `split(',')` yields one more piece than the string has commas, so empty pieces count |
| Tokens.SplitPiecesCommaFree | accounts/views.py:50 | no piece of a split contains a comma |
| Tokens.JoinSplit | accounts/views.py:50 | joining the pieces of a split with commas gives back the original string |
| Tokens.SplitJoin | accounts/views.py:50 | splitting a comma-join of comma-free image names gives back the names, in order |
| Tokens.JoinInjective | accounts/tests.py:174-201 | two lists of comma-free names join to the same string exactly when the lists are equal, so a different order gives a different string |
| Tokens.ImageCountOfJoin | accounts/views.py:50-53 | the count the register view takes of a joined selection is the number of names selected |
| Views.Valid | accounts/models.py:11-13 | the store invariant: accounts are filed under their own username, and each record is filed under, and owned by, an existing user and fits its columns; it implies every record has a user |
| Views.RegisterCheck | accounts/views.py:38-63 | the register view's decision through its early returns; a rejection names one of the five checks and that check fails; an acceptance means the username and the email are both free |
| Views.NewCredential | accounts/views.py:71-78 | the record `create` adds is owned by the new username, keeps the salt drawn, has both stamps at the creation time, and fits its columns when the salt is 32 hex characters and the hash a digest function |
| Views.AfterRegister | accounts/views.py:65-78 | the store after a register request: the account (`NewUser`, via `WithUser`) and then the record (`NewCredential`, via `WithCredential`) on acceptance, otherwise the old store; existing accounts are never changed and no key other than the new username is added |
| Views.WithoutUser | accounts/models.py:11 | deleting a user by username removes its account and, by the cascade, its record; every other account and record keeps its value; the store invariant is kept |
| Views.Authenticates | accounts/views.py:115 | `authenticate` returns a user only for a stored username whose stored password is the encoding of the one given |
| Views.LoginDecision | accounts/views.py:109-136 | the login view's decision through its early returns; a rejection names one of the four checks and that check fails; an acceptance means the user exists and has a record |
| Models.Created | accounts/models.py:11-15 | a new record carries the owner, hash and salt given, its `created_at` and `updated_at` are the creation time, and it fits its columns exactly when the hash and salt fit the declared widths |
| Models.Saved | accounts/models.py:14-15 | a `save()` moves `updated_at` to the save time and leaves `created_at` and the record's data unchanged |
| Models.Describe | accounts/models.py:17-18 | `__str__` has the fixed prefix "Graphical Password for " and is exactly as long as that prefix plus the owner's username |
| Models.SavesKeepCreation | accounts/models.py:14-15 | after any sequence of saves (`SavedAt`), `created_at` and the record's data are unchanged and `updated_at` is the time of the last save |
| Models.DescribeNamesOwner | accounts/models.py:17-18 | `__str__` is "Graphical Password for " followed by the owner's username; two records read the same exactly when they have the same owner |
| Properties.RegisterCheckOrder | accounts/views.py:38-63 | registration is rejected with the k-th check (email syntax, empty string, count 4..6, taken username, taken email) exactly when that check fails and every earlier one passes |
| Properties.RegisterAcceptedIff | accounts/views.py:38-65 | registration is accepted exactly when none of the five checks fails |
| Properties.RejectedRegistrationChangesNothing | accounts/views.py:38-63 | every rejection leaves the store unchanged; an accepted string is non-empty and has between 4 and 6 comma-split pieces |
| Properties.AcceptedRegistrationEffect | accounts/views.py:65-78 | a success adds exactly one account and exactly one record for it. The salt is the one drawn; the hash is the 64-hex digest of the raw string + salt; both timestamps are the creation time. Every other entry is unchanged |
| Properties.RegisterKeepsValid | accounts/models.py:11-13 | registration keeps the store's one-to-one and column-width invariant |
| Properties.RegisterKeepsEmailsUnique | accounts/views.py:60-63 | if no two accounts share an email before a registration, none do after it |
| Properties.InterruptedRegistration | accounts/views.py:66-78 | after the user write alone, the store is consistent and that user's login is refused as having no graphical password |
| Properties.DeleteCascades | accounts/models.py:11 | deleting a user removes its record too, the remaining keys are the old ones minus that username, every remaining entry is unchanged, and the store stays consistent |
| Properties.LoginDecisionOrder | accounts/views.py:109-136 | login is rejected with the k-th check (empty string, primary credentials, record present, digest match) exactly when that check fails and every earlier one passes |
| Properties.LoginAcceptedIff | accounts/views.py:103-126 | login succeeds exactly when the string is non-empty, the password authenticates, a record exists and the digest of string + stored salt equals the stored hash |
| Properties.RegisterThenLogin | accounts/views.py:65-126 | after a successful registration, login with the same username, password and string succeeds |
| Properties.OtherSelectionRefused | accounts/views.py:119-129 | after registration, a different non-empty string is refused as the wrong graphical password when the hash tells the two salted strings apart |
| Properties.ReversedSelectionRefused | accounts/tests.py:174-201 | after registering comma-free image names, the same names in reverse order, when that order differs, are refused as the wrong graphical password under the same hypothesis |
| Properties.WrongPasswordRefused | accounts/views.py:114-136 | a wrong primary password is refused as invalid credentials even with the registered string |
| Store.AccountStore.Register | accounts/views.py:31-81 | the register view's decision and new tables are those of `RegisterCheck` and `AfterRegister`, and the store invariant is kept |
| Store.AccountStore.Login | accounts/views.py:103-136 | the login view's outcome is `LoginDecision` on the current tables |
| Store.AccountStore.DeleteUser | accounts/models.py:11 | deleting a user row removes it and its record, keeping the invariant |
| Scenarios.EmptyPiecesCount | accounts/views.py:50-53 | `",,,"` and `"a,,b,c"` each count as four images |
| Scenarios.CountBoundsRefused | accounts/tests.py:73-110 | two images and seven images are both refused for their count, and the store is unchanged |
| Scenarios.EmptySelectionRefused | accounts/tests.py:53-71 | an empty image string is refused as missing, and no account is created |
| Scenarios.DuplicateUsernameRefused | accounts/tests.py:257-279 | a taken username is refused and the store is unchanged |
| Scenarios.RegisterAndLogIn | accounts/tests.py:112-228 | registering four images and then logging in: the exact string succeeds, the reversed images fail as the wrong graphical password, and a wrong password fails as invalid credentials |

## Left out

- SHA-256 itself is not modelled. The hash is a function value. Its 64-hex output shape is the hypothesis `IsDigestFunction`.
- Collision resistance is assumed only pairwise (`Distinguishes`), where order or salt sensitivity is stated. A global injectivity assumption would be unsatisfiable, because there are only finitely many 64-character strings.
- `secrets.token_hex` randomness is not modelled. The salt is a parameter. Salts being distinct across users (accounts/tests.py:230-253) is a matter of probability and is not proved. `DigestsAgreeIff` covers only the consequence that different salts give different digests.
- `validate_email` is an abstract predicate in `Env`.
- The primary password is not modelled in detail. Django's salted `make_password`/`check_password` is reduced to one deterministic encoding.
- `authenticate`'s `is_active` check is not modelled. Every stored user can authenticate.
- `auth.login` is not modelled: neither the session nor its write of the user's `last_login`. `User` has no such field. A successful login is the `Accepted` outcome, and `Login` changes none of the modelled fields.
- `create_user`'s normalisation of usernames and emails is not modelled. `NewUser` stores both exactly as submitted.
- Properties.RegisterKeepsEmailsUnique: holds for the model, but not for the code. `create_user` lowercases the email's domain before storing it, while the duplicate check compares the raw email. So registering `x@Example.com` when `x@example.com` is on file passes the check and stores a second `x@example.com`.
- Properties.RegisterThenLogin: holds for the model, which stores the username as submitted. `create_user` applies NFKC normalisation to the username. A username such as "ﬁ" (U+FB01) is stored as "fi", and a later login as "ﬁ" is refused as invalid credentials.
- Models.Created: `created_at` and `updated_at` are given one clock reading. Django takes a separate `timezone.now()` for each field, so the two stamps of a new record can differ by a few microseconds.
- `create_user` raises an error for an empty username. This is not modelled: the model creates the account.
- HTTP plumbing is not modelled. This covers `request.POST`, a missing form field raising an error, `messages`, `redirect`, `render` and status codes. Outcomes are the `Outcome` datatype instead.
- The GET branches of `register` and `login`, the `index`, `about`, `team` and `logout` views, and the constant 50-image catalogue only render templates. They are not modelled.
- The route table (accounts/urls.py), the admin configuration (accounts/admin.py) and the browser automation script (test_graphical_password.py) are not part of this model.
- Database transactions and concurrent requests are not modelled. The code has none. Races on the uniqueness checks are out of scope.
- The `max_length` limits are stated as a store invariant (`FitsColumns`). Whether a database enforces them is not modelled.
